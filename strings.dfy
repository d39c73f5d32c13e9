/** The few operations of .NET's System.String that the watcher relies on,
    over strings as `seq<char>`: upper-casing, splitting on one character,
    joining with a separator and the ordinal substring test. */
module Strings {

  /** An ASCII lower-case letter. */
  predicate IsLower(c: char) {
    'a' <= c <= 'z'
  }

  /** An ASCII upper-case letter. */
  predicate IsUpper(c: char) {
    'A' <= c <= 'Z'
  }

  /** Upper-case of one character: ASCII letters only, every other character
      is left as it is. */
  function UpperChar(c: char): (u: char)
    ensures !IsLower(u)
    ensures IsLower(c) || u == c
    ensures IsUpper(u) <==> IsUpper(c) || IsLower(c)
  {
    if IsLower(c) then (c as int - 32) as char else c
  }

  /** `s.ToUpper()`: a string of the same length (what each character
      becomes is `ToUpperAt`). */
  function ToUpper(s: string): (u: string)
    ensures |u| == |s|
  {
    seq(|s|, i requires 0 <= i < |s| => UpperChar(s[i]))
  }

  /** Each character is upper-cased in place. */
  lemma ToUpperAt(s: string, i: nat)
    requires i < |s|
    ensures ToUpper(s)[i] == UpperChar(s[i])
  {
  }

  /** Upper-casing a non-empty string upper-cases its first character and
      then the rest. */
  lemma ToUpperCons(s: string)
    requires s != []
    ensures ToUpper(s) == [UpperChar(s[0])] + ToUpper(s[1..])
  {
    forall i | 0 <= i < |s|
      ensures ToUpper(s)[i] == ([UpperChar(s[0])] + ToUpper(s[1..]))[i]
    {
      if i > 0 {
        assert s[1..][i - 1] == s[i];
      }
    }
  }

  /** An upper-cased string holds no lower-case letter. */
  lemma ToUpperNoLower(s: string)
    ensures forall c :: c in ToUpper(s) ==> !IsLower(c)
  {
    forall c | c in ToUpper(s)
      ensures !IsLower(c)
    {
      var i :| 0 <= i < |s| && ToUpper(s)[i] == c;
      ToUpperAt(s, i);
    }
  }

  /** Upper-casing an upper-cased string changes nothing. */
  lemma ToUpperIdempotent(s: string)
    ensures ToUpper(ToUpper(s)) == ToUpper(s)
  {
    var u := ToUpper(s);
    forall i | 0 <= i < |u|
      ensures ToUpper(u)[i] == u[i]
    {
      ToUpperAt(u, i);
      ToUpperAt(s, i);
    }
  }

  /** A string without lower-case letters is its own upper case. */
  lemma ToUpperOfUpper(s: string)
    requires forall i :: 0 <= i < |s| ==> !IsLower(s[i])
    ensures ToUpper(s) == s
  {
    forall i | 0 <= i < |s|
      ensures ToUpper(s)[i] == s[i]
    {
      ToUpperAt(s, i);
    }
  }

  /** Upper-casing commutes with taking a slice. */
  lemma ToUpperSlice(s: string, i: nat, j: nat)
    requires i <= j <= |s|
    ensures ToUpper(s)[i..j] == ToUpper(s[i..j])
  {
    var whole, part := ToUpper(s)[i..j], ToUpper(s[i..j]);
    forall k | 0 <= k < j - i
      ensures whole[k] == part[k]
    {
      ToUpperAt(s, i + k);
      ToUpperAt(s[i..j], k);
      assert s[i..j][k] == s[i + k];
    }
  }

  /** Upper-casing adds no separator and removes none: a character that is
      not a letter stands in the upper case exactly where it stood before. */
  lemma ToUpperKeepsOther(s: string, c: char)
    requires !IsLower(c) && !IsUpper(c)
    ensures forall i :: 0 <= i < |s| ==> (ToUpper(s)[i] == c <==> s[i] == c)
  {
    forall i | 0 <= i < |s|
      ensures ToUpper(s)[i] == c <==> s[i] == c
    {
      ToUpperAt(s, i);
    }
  }

  /** A character that is not a letter occurs as often after upper-casing as before. */
  lemma {:induction false} ToUpperKeepsCount(s: string, c: char)
    requires !IsLower(c) && !IsUpper(c)
    ensures multiset(ToUpper(s))[c] == multiset(s)[c]
  {
    if s != [] {
      ToUpperKeepsCount(s[1..], c);
      assert s == [s[0]] + s[1..];
      ToUpperCons(s);
    }
  }

  /** `s.Split(sep)`: the pieces between separators, empty pieces kept, so there
      is always one piece more than there are separators and no piece holds
      the separator. */
  function Split(s: string, sep: char): (parts: seq<string>)
    ensures |parts| == multiset(s)[sep] + 1
    ensures forall i :: 0 <= i < |parts| ==> sep !in parts[i]
    decreases |s|
  {
    if s == [] then [""]
    else
      var rest := Split(s[1..], sep);
      assert s == [s[0]] + s[1..];
      if s[0] == sep then [""] + rest
      else [[s[0]] + rest[0]] + rest[1..]
  }

  /** Every character of a piece comes from the string that was split. */
  lemma {:induction false} SplitPartChar(s: string, sep: char, i: nat, j: nat)
    requires i < |Split(s, sep)| && j < |Split(s, sep)[i]|
    ensures Split(s, sep)[i][j] in s
    decreases |s|
  {
    if s != [] {
      var rest := Split(s[1..], sep);
      assert s == [s[0]] + s[1..];
      if s[0] == sep {
        assert Split(s, sep) == [""] + rest;
        SplitPartChar(s[1..], sep, i - 1, j);
      } else {
        assert Split(s, sep) == [[s[0]] + rest[0]] + rest[1..];
        if i == 0 && j > 0 {
          SplitPartChar(s[1..], sep, 0, j - 1);
        } else if i > 0 {
          SplitPartChar(s[1..], sep, i, j);
        }
      }
    }
  }

  /** Sum of the lengths of `parts`. */
  function TotalLength(parts: seq<string>): nat
  {
    if parts == [] then 0 else |parts[0]| + TotalLength(parts[1..])
  }

  /** `String.Join(sep, parts)`: the parts in order with `sep` between
      neighbours; no parts give the empty string. */
  function Join(sep: string, parts: seq<string>): (r: string)
    ensures parts == [] ==> r == []
    ensures |parts| >= 1 ==> |r| == TotalLength(parts) + (|parts| - 1) * |sep|
    ensures |parts| >= 1 ==> parts[0] <= r
  {
    if |parts| == 0 then ""
    else if |parts| == 1 then parts[0]
    else parts[0] + sep + Join(sep, parts[1..])
  }

  /** Gluing a character onto the first part glues it onto the join. */
  lemma JoinGlueFirst(c: char, sep: string, parts: seq<string>)
    requires |parts| >= 1
    ensures Join(sep, [[c] + parts[0]] + parts[1..]) == [c] + Join(sep, parts)
  {
    var glued := [[c] + parts[0]] + parts[1..];
    assert glued[0] == [c] + parts[0];
    if |parts| > 1 {
      assert glued[1..] == parts[1..];
    }
  }

  /** An empty first part puts the separator at the front of the join. */
  lemma JoinEmptyFirst(sep: string, parts: seq<string>)
    requires |parts| >= 1
    ensures Join(sep, [""] + parts) == sep + Join(sep, parts)
  {
    var more := [""] + parts;
    assert more[0] == "" && more[1..] == parts;
  }

  /** How a non-empty string splits: a separator in front opens an empty
      piece, any other character joins the first piece of the rest. */
  lemma SplitCons(s: string, sep: char)
    requires s != []
    ensures s[0] == sep ==> Split(s, sep) == [""] + Split(s[1..], sep)
    ensures s[0] != sep ==> Split(s, sep) == [[s[0]] + Split(s[1..], sep)[0]] + Split(s[1..], sep)[1..]
  {
  }

  /** Joining the pieces of a split with the separator gives back the string. */
  lemma {:induction false} JoinSplit(s: string, sep: char)
    ensures Join([sep], Split(s, sep)) == s
    decreases |s|
  {
    if s != [] {
      JoinSplit(s[1..], sep);
      SplitCons(s, sep);
      if s[0] == sep {
        JoinEmptyFirst([sep], Split(s[1..], sep));
      } else {
        JoinGlueFirst(s[0], [sep], Split(s[1..], sep));
      }
      assert s == [s[0]] + s[1..];
    }
  }

  /** A string without the separator splits into itself alone. */
  lemma SplitNoSeparator(s: string, sep: char)
    requires sep !in s
    ensures Split(s, sep) == [s]
  {
    JoinSplit(s, sep);
    assert multiset(s)[sep] == 0;
  }

  /** A separator-free prefix followed by the separator becomes the first piece. */
  lemma {:induction false} SplitPrefix(p: string, sep: char, t: string)
    requires sep !in p
    ensures Split(p + [sep] + t, sep) == [p] + Split(t, sep)
    decreases |p|
  {
    var s := p + [sep] + t;
    if p == [] {
      assert s[1..] == t;
    } else {
      assert s[1..] == p[1..] + [sep] + t;
      SplitPrefix(p[1..], sep, t);
      var rest := Split(s[1..], sep);
      assert rest[0] == p[1..] && rest[1..] == Split(t, sep);
      assert s[0] == p[0] != sep;
      assert Split(s, sep) == [[p[0]] + rest[0]] + rest[1..];
      assert [p[0]] + p[1..] == p;
    }
  }

  /** Splitting a join of separator-free parts gives back the parts. */
  lemma {:induction false} SplitJoin(parts: seq<string>, sep: char)
    requires |parts| >= 1
    requires forall i :: 0 <= i < |parts| ==> sep !in parts[i]
    ensures Split(Join([sep], parts), sep) == parts
    decreases |parts|
  {
    if |parts| == 1 {
      SplitNoSeparator(parts[0], sep);
    } else {
      SplitJoin(parts[1..], sep);
      SplitPrefix(parts[0], sep, Join([sep], parts[1..]));
      assert [parts[0]] + parts[1..] == parts;
    }
  }

  /** A string holding the separator exactly once, at `k`, splits into the
      text before it and the text after it. */
  lemma SplitAtSingle(s: string, sep: char, k: nat)
    requires k < |s| && s[k] == sep
    requires sep !in s[..k] && sep !in s[k + 1..]
    ensures Split(s, sep) == [s[..k], s[k + 1..]]
  {
    assert s == s[..k] + [sep] + s[k + 1..];
    SplitPrefix(s[..k], sep, s[k + 1..]);
    SplitNoSeparator(s[k + 1..], sep);
  }

  /** `sub` occurs in `s` starting at index `i`. */
  predicate OccursAt(s: string, sub: string, i: nat) {
    i + |sub| <= |s| && s[i..i + |sub|] == sub
  }

  /** Occurrences in `s` past its first character are the occurrences in `s[1..]`. */
  lemma OccursShift(s: string, sub: string)
    requires s != [] && !(sub <= s)
    ensures (exists i: nat :: OccursAt(s, sub, i)) <==> (exists i: nat :: OccursAt(s[1..], sub, i))
  {
    if i: nat :| OccursAt(s, sub, i) {
      assert i != 0;
      assert s[1..][i - 1..i - 1 + |sub|] == s[i..i + |sub|];
      assert OccursAt(s[1..], sub, i - 1);
    }
    if i: nat :| OccursAt(s[1..], sub, i) {
      assert s[i + 1..i + 1 + |sub|] == s[1..][i..i + |sub|];
      assert OccursAt(s, sub, i + 1);
    }
  }

  /** `s.Contains(sub)`, ordinal and case-sensitive: some occurrence of `sub`
      lies inside `s`. */
  function Contains(s: string, sub: string): (r: bool)
    ensures r <==> exists i: nat :: OccursAt(s, sub, i)
    decreases |s|
  {
    if sub <= s then
      assert OccursAt(s, sub, 0);
      true
    else if s == [] then false
    else
      OccursShift(s, sub);
      Contains(s[1..], sub)
  }

  /** A string contains whatever is glued into it. */
  lemma ContainsInside(x: string, sub: string, y: string)
    ensures Contains(x + sub + y, sub)
  {
    assert (x + sub + y)[|x|..|x| + |sub|] == sub;
    assert OccursAt(x + sub + y, sub, |x|);
  }

  /** Containment is transitive. */
  lemma ContainsTransitive(a: string, b: string, c: string)
    requires Contains(a, b) && Contains(b, c)
    ensures Contains(a, c)
  {
    var i: nat :| OccursAt(a, b, i);
    var j: nat :| OccursAt(b, c, j);
    forall k | 0 <= k < |c|
      ensures a[i + j + k] == c[k]
    {
      assert a[i..i + |b|][j + k] == b[j + k];
      assert b[j..j + |c|][k] == c[k];
    }
    assert a[i + j..i + j + |c|] == c;
    assert OccursAt(a, c, i + j);
  }

  /** Every character of a contained string is a character of the container. */
  lemma ContainsChar(s: string, sub: string, c: char)
    requires Contains(s, sub) && c in sub
    ensures c in s
  {
    var i: nat :| OccursAt(s, sub, i);
    var k :| 0 <= k < |sub| && sub[k] == c;
    assert s[i..i + |sub|][k] == s[i + k];
  }
}
