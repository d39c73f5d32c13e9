/** The string logic of the OnUSBConnect tray watcher: reading the command
    line into a device signature and a command, deciding whether an arriving
    device is the configured one, and building the text handed to cmd.exe and
    shown in the tray. */
module UsbTrigger {
  import opened Strings

  /** Why start-up gives up; each shows a message box and asks the
      application to exit. */
  datatype ConfigError =
    | Usage          // fewer than two command-line arguments
    | InvalidFormat  // the first argument does not split on ':' into two parts

  /** What a successful start stores in the fields `vendorID`, `productID`
      and `commandToRun`. */
  datatype Config = Config(vendorID: string, productID: string, commandToRun: string)

  datatype Result<T> = Ok(value: T) | Err(error: ConfigError)

  const VendorTag: string := "VID_"
  const ProductTag: string := "PID_"
  const ShellPrefix: string := "/c "
  const TrayTitle: string := "on-usb-connect\n\n"

  /** The shape every configured signature has: tagged tokens, no colon left
      in either, and no lower-case ASCII letter. */
  predicate WellFormed(cfg: Config) {
    && VendorTag <= cfg.vendorID && ProductTag <= cfg.productID
    && ':' !in cfg.vendorID && ':' !in cfg.productID
    && (forall c :: c in cfg.vendorID ==> !IsLower(c))
    && (forall c :: c in cfg.productID ==> !IsLower(c))
  }

  /** The constructor's checks and assignments: the arguments are rejected
      when there are fewer than two, or when the upper-cased first argument
      does not split on ':' into exactly two parts (that is, it does not hold
      exactly one colon); otherwise the parts, tagged, are the signature and
      the remaining arguments joined by single spaces are the command. */
  function ParseArgs(args: seq<string>): (r: Result<Config>)
    ensures r == Err(Usage) <==> |args| < 2
    ensures r == Err(InvalidFormat) <==> |args| >= 2 && multiset(args[0])[':'] != 1
    ensures r.Ok? ==> WellFormed(r.value)
  {
    if |args| < 2 then Err(Usage)
    else
      var ids := Split(ToUpper(args[0]), ':');
      UpperSplit(args[0]);
      if |ids| != 2 then Err(InvalidFormat)
      else Ok(Config(VendorTag + ids[0], ProductTag + ids[1], Join(" ", args[1..])))
  }

  /** The pieces of the upper-cased first argument: one more than it has
      colons, none holding a colon or a lower-case letter. */
  lemma UpperSplit(s: string)
    ensures |Split(ToUpper(s), ':')| == multiset(s)[':'] + 1
    ensures forall i, c :: 0 <= i < |Split(ToUpper(s), ':')| && c in Split(ToUpper(s), ':')[i]
              ==> c != ':' && !IsLower(c)
  {
    ToUpperKeepsCount(s, ':');
    var upper := ToUpper(s);
    var ids := Split(upper, ':');
    ToUpperNoLower(s);
    forall i, c | 0 <= i < |ids| && c in ids[i]
      ensures c != ':' && !IsLower(c)
    {
      var j :| 0 <= j < |ids[i]| && ids[i][j] == c;
      SplitPartChar(upper, ':', i, j);
    }
  }

  /** With exactly one colon in the first argument, at `k`, the signature is
      the tagged, upper-cased text before and after it, and the command is
      the other arguments joined by spaces. */
  lemma ParseArgsTokens(args: seq<string>, k: nat)
    requires |args| >= 2
    requires k < |args[0]| && args[0][k] == ':'
    requires ':' !in args[0][..k] && ':' !in args[0][k + 1..]
    ensures ParseArgs(args) == Ok(Config(VendorTag + ToUpper(args[0][..k]),
                                         ProductTag + ToUpper(args[0][k + 1..]),
                                         Join(" ", args[1..])))
  {
    var s := args[0];
    var upper := ToUpper(s);
    ToUpperSlice(s, 0, k);
    ToUpperSlice(s, k + 1, |s|);
    ToUpperKeepsOther(s, ':');
    assert ':' !in upper[..k] by {
      forall i | 0 <= i < k ensures upper[i] != ':' {
        assert s[..k][i] == s[i];
      }
    }
    assert ':' !in upper[k + 1..] by {
      forall i | k + 1 <= i < |s| ensures upper[i] != ':' {
        assert s[k + 1..][i - k - 1] == s[i];
      }
    }
    assert upper[k] == ':';
    SplitAtSingle(upper, ':', k);
    assert s[0..k] == s[..k] && upper[0..k] == upper[..k];
    assert upper[..k] == ToUpper(s[..k]) && upper[k + 1..] == ToUpper(s[k + 1..]);
  }

  /** A leading colon is accepted and leaves the bare vendor tag. */
  lemma ParseArgsLeadingColon(p: string, rest: seq<string>)
    requires ':' !in p && |rest| >= 1
    ensures ParseArgs([":" + p] + rest) == Ok(Config(VendorTag, ProductTag + ToUpper(p), Join(" ", rest)))
  {
    var empty := ToUpper([]);
    assert empty == [];
    assert VendorTag + empty == VendorTag;
    var args, first := [":" + p] + rest, ":" + p;
    assert first[..0] == [] && first[1..] == p;
    assert args[0] == first && args[1..] == rest;
    ParseArgsTokens(args, 0);
  }

  /** A trailing colon is accepted and leaves the bare product tag. */
  lemma ParseArgsTrailingColon(p: string, rest: seq<string>)
    requires ':' !in p && |rest| >= 1
    ensures ParseArgs([p + ":"] + rest) == Ok(Config(VendorTag + ToUpper(p), ProductTag, Join(" ", rest)))
  {
    var empty := ToUpper([]);
    assert empty == [];
    assert ProductTag + empty == ProductTag;
    var args, first := [p + ":"] + rest, p + ":";
    assert first[..|p|] == p;
    assert first[|p| + 1..] == [];
    assert args[0] == first && args[1..] == rest;
    ParseArgsTokens(args, |p|);
    assert ToUpper(first[|p| + 1..]) == empty;
  }

  /** The signature argument is read case-insensitively: upper-casing it
      beforehand changes nothing. */
  lemma ParseArgsCaseInsensitive(first: string, rest: seq<string>)
    ensures ParseArgs([first] + rest) == ParseArgs([ToUpper(first)] + rest)
  {
    ToUpperIdempotent(first);
    assert ([first] + rest)[1..] == rest == ([ToUpper(first)] + rest)[1..];
  }

  /** The command is the arguments after the first, joined by single spaces:
      with two arguments it is the second one verbatim, and its length is the
      sum of those arguments' lengths plus one space between each two. */
  lemma ParseArgsCommand(args: seq<string>)
    requires ParseArgs(args).Ok?
    ensures ParseArgs(args).value.commandToRun == Join(" ", args[1..])
    ensures |args| == 2 ==> ParseArgs(args).value.commandToRun == args[1]
    ensures |ParseArgs(args).value.commandToRun| == TotalLength(args[1..]) + |args| - 2
  {
    assert |args[1..]| == |args| - 1;
  }

  /** Argument boundaries are lost: one argument holding a space and the
      same text given as two arguments configure the same command. */
  lemma ParseArgsJoinsAcrossSpaces(first: string, x: string, y: string)
    ensures ParseArgs([first, x + " " + y]) == ParseArgs([first, x, y])
  {
    assert [first, x + " " + y][1..] == [x + " " + y];
    assert [first, x, y][1..] == [x, y];
    assert [x, y][1..] == [y];
    assert Join(" ", [x, y]) == x + " " + y;
    assert Join(" ", [x + " " + y]) == x + " " + y;
  }

  /** The test applied to every arriving device (the ordinal, case-sensitive
      `Contains` on both tokens): both tokens occur somewhere in the device ID,
      at any positions and in either order. */
  function Matches(deviceID: string, vendorID: string, productID: string): (m: bool)
    ensures m <==> ((exists i: nat :: OccursAt(deviceID, vendorID, i))
                    && (exists j: nat :: OccursAt(deviceID, productID, j)))
  {
    Contains(deviceID, vendorID) && Contains(deviceID, productID)
  }

  /** The two tokens may appear in either order, anywhere in the device ID. */
  lemma MatchesAnyOrder(vendorID: string, productID: string, x: string, y: string, z: string)
    ensures Matches(x + vendorID + y + productID + z, vendorID, productID)
    ensures Matches(x + productID + y + vendorID + z, vendorID, productID)
  {
    assert x + vendorID + y + productID + z == x + vendorID + (y + productID + z);
    ContainsInside(x, vendorID, y + productID + z);
    assert x + vendorID + y + productID + z == (x + vendorID + y) + productID + z;
    ContainsInside(x + vendorID + y, productID, z);
    assert x + productID + y + vendorID + z == x + productID + (y + vendorID + z);
    ContainsInside(x, productID, y + vendorID + z);
    assert x + productID + y + vendorID + z == (x + productID + y) + vendorID + z;
    ContainsInside(x + productID + y, vendorID, z);
  }

  /** A matching device ID holds the upper-case tags themselves. */
  lemma MatchesHasTags(deviceID: string, cfg: Config)
    requires WellFormed(cfg)
    requires Matches(deviceID, cfg.vendorID, cfg.productID)
    ensures Contains(deviceID, VendorTag) && Contains(deviceID, ProductTag)
  {
    assert cfg.vendorID == [] + VendorTag + cfg.vendorID[|VendorTag|..];
    ContainsInside([], VendorTag, cfg.vendorID[|VendorTag|..]);
    ContainsTransitive(deviceID, cfg.vendorID, VendorTag);
    assert cfg.productID == [] + ProductTag + cfg.productID[|ProductTag|..];
    ContainsInside([], ProductTag, cfg.productID[|ProductTag|..]);
    ContainsTransitive(deviceID, cfg.productID, ProductTag);
  }

  /** Matching is case-sensitive: only the signature is upper-cased, so a
      device ID without an upper-case 'V' (or without an upper-case 'P')
      never matches, whatever the arguments were. */
  lemma MatchesCaseSensitive(deviceID: string, cfg: Config)
    requires WellFormed(cfg)
    requires 'V' !in deviceID || 'P' !in deviceID
    ensures !Matches(deviceID, cfg.vendorID, cfg.productID)
  {
    if Matches(deviceID, cfg.vendorID, cfg.productID) {
      assert cfg.vendorID[0] == 'V' && cfg.productID[0] == 'P';
      ContainsChar(deviceID, cfg.vendorID, 'V');
      ContainsChar(deviceID, cfg.productID, 'P');
    }
  }

  /** The `Arguments` given to cmd.exe: the "/c " switch and then the command,
      which can be read back off its end. */
  function ShellArguments(command: string): (r: string)
    ensures ShellPrefix <= r
    ensures r[|ShellPrefix|..] == command
  {
    ShellPrefix + command
  }

  /** The first menu item: the two tokens separated by a colon. */
  function Label(vendorID: string, productID: string): (r: string)
    ensures vendorID <= r && |r| == |vendorID| + 1 + |productID|
  {
    vendorID + ":" + productID
  }

  /** The tooltip of the tray icon: a title line, a blank line, the label. */
  function TrayText(vendorID: string, productID: string): (r: string)
    ensures TrayTitle <= r
    ensures r[|TrayTitle|..] == Label(vendorID, productID)
  {
    TrayTitle + Label(vendorID, productID)
  }

  /** For a configured signature the label starts with "VID_", holds
      ":PID_", and splits on ':' back into the two tokens. */
  lemma LabelShape(cfg: Config)
    requires WellFormed(cfg)
    ensures VendorTag <= Label(cfg.vendorID, cfg.productID)
    ensures Contains(Label(cfg.vendorID, cfg.productID), ":" + ProductTag)
    ensures Split(Label(cfg.vendorID, cfg.productID), ':') == [cfg.vendorID, cfg.productID]
  {
    var text := Label(cfg.vendorID, cfg.productID);
    var tail := cfg.productID[|ProductTag|..];
    assert cfg.productID == ProductTag + tail;
    assert text == cfg.vendorID + (":" + ProductTag) + tail;
    ContainsInside(cfg.vendorID, ":" + ProductTag, tail);
    assert Join([':'], [cfg.vendorID, cfg.productID]) == text;
    SplitJoin([cfg.vendorID, cfg.productID], ':');
  }

  /** The `Arguments` of the cmd.exe processes started while the devices
      `deviceIDs` arrive one after another: one for each matching arrival,
      with nothing suppressing repeats. */
  function Launches(cfg: Config, deviceIDs: seq<string>): (r: seq<string>)
    ensures |r| <= |deviceIDs|
    ensures forall i :: 0 <= i < |r| ==> r[i] == ShellArguments(cfg.commandToRun)
  {
    if deviceIDs == [] then []
    else
      (if Matches(deviceIDs[0], cfg.vendorID, cfg.productID) then [ShellArguments(cfg.commandToRun)] else [])
      + Launches(cfg, deviceIDs[1..])
  }

  /** Arrivals are handled one at a time: the launches for two stretches of
      arrivals are those of the first followed by those of the second. */
  lemma {:induction false} LaunchesAppend(cfg: Config, xs: seq<string>, ys: seq<string>)
    ensures Launches(cfg, xs + ys) == Launches(cfg, xs) + Launches(cfg, ys)
  {
    if xs == [] {
      assert xs + ys == ys;
    } else {
      var head := if Matches(xs[0], cfg.vendorID, cfg.productID) then [ShellArguments(cfg.commandToRun)] else [];
      var tail, later := Launches(cfg, xs[1..]), Launches(cfg, ys);
      LaunchesAppend(cfg, xs[1..], ys);
      assert (xs + ys)[0] == xs[0] && (xs + ys)[1..] == xs[1..] + ys;
      assert Launches(cfg, xs + ys) == head + (tail + later);
      assert head + (tail + later) == (head + tail) + later;
    }
  }

  /** When every arrival matches, every one launches the command: nothing
      suppresses a repeat of the same device. */
  lemma {:induction false} LaunchesEveryMatch(cfg: Config, deviceIDs: seq<string>)
    requires forall i :: 0 <= i < |deviceIDs| ==> Matches(deviceIDs[i], cfg.vendorID, cfg.productID)
    ensures |Launches(cfg, deviceIDs)| == |deviceIDs|
  {
    if deviceIDs != [] {
      LaunchesEveryMatch(cfg, deviceIDs[1..]);
    }
  }

  /** When no arrival matches, nothing is launched. */
  lemma {:induction false} LaunchesNoMatch(cfg: Config, deviceIDs: seq<string>)
    requires forall i :: 0 <= i < |deviceIDs| ==> !Matches(deviceIDs[i], cfg.vendorID, cfg.productID)
    ensures Launches(cfg, deviceIDs) == []
  {
    if deviceIDs != [] {
      LaunchesNoMatch(cfg, deviceIDs[1..]);
    }
  }

  /** A device ID that is empty never matches a configured signature. */
  lemma EmptyDeviceIDNeverMatches(cfg: Config)
    requires WellFormed(cfg)
    ensures !Matches("", cfg.vendorID, cfg.productID)
  {
    MatchesCaseSensitive("", cfg);
  }

  /** Every repeat of a matching arrival launches the command again. */
  lemma RepeatedArrivalsEachLaunch(cfg: Config, deviceID: string)
    requires Matches(deviceID, cfg.vendorID, cfg.productID)
    ensures Launches(cfg, [deviceID, deviceID, deviceID])
            == [ShellArguments(cfg.commandToRun), ShellArguments(cfg.commandToRun), ShellArguments(cfg.commandToRun)]
  {
    var one := ShellArguments(cfg.commandToRun);
    assert Launches(cfg, [deviceID]) == [one];
    LaunchesAppend(cfg, [deviceID], [deviceID]);
    assert [deviceID] + [deviceID] == [deviceID, deviceID];
    LaunchesAppend(cfg, [deviceID], [deviceID, deviceID]);
    assert [deviceID] + [deviceID, deviceID] == [deviceID, deviceID, deviceID];
  }

  /** A signature already in upper case, such as 1A2B:3C4D, is taken as
      written: its tokens are VID_1A2B and PID_3C4D. */
  lemma ParseArgsUpperSignature(v: string, p: string, command: string)
    requires ':' !in v && ':' !in p
    requires forall i :: 0 <= i < |v| ==> !IsLower(v[i])
    requires forall i :: 0 <= i < |p| ==> !IsLower(p[i])
    ensures ParseArgs([v + ":" + p, command]) == Ok(Config(VendorTag + v, ProductTag + p, command))
  {
    var args := [v + ":" + p, command];
    var first := v + ":" + p;
    assert first[..|v|] == v && first[|v| + 1..] == p;
    assert args[0] == first && args[1..] == [command];
    ParseArgsTokens(args, |v|);
    ToUpperOfUpper(v);
    ToUpperOfUpper(p);
  }

  /** A device ID in the usual shape, the two tokens joined by '&' with
      anything before and after, launches the command once. */
  lemma AdjacentTokensLaunch(cfg: Config, before: string, after: string)
    ensures Launches(cfg, [before + cfg.vendorID + "&" + cfg.productID + after])
            == [ShellArguments(cfg.commandToRun)]
  {
    MatchesAnyOrder(cfg.vendorID, cfg.productID, before, "&", after);
  }

  /** With signature 1A2B:3C4D, the device ID
      \\?\USB#VID_1A2B&PID_3C4D#5&abc#{guid} launches the command once. */
  lemma ExampleArrivalLaunches(command: string)
    ensures Launches(Config("VID_1A2B", "PID_3C4D", command), ["\\\\?\\USB#VID_1A2B&PID_3C4D#5&abc#{guid}"])
            == ["/c " + command]
  {
    assert "\\\\?\\USB#VID_1A2B&PID_3C4D#5&abc#{guid}"
        == "\\\\?\\USB#" + "VID_1A2B" + "&" + "PID_3C4D" + "#5&abc#{guid}";
    AdjacentTokensLaunch(Config("VID_1A2B", "PID_3C4D", command), "\\\\?\\USB#", "#5&abc#{guid}");
  }

  /** The signature 1A2B:3C4D is well formed. */
  lemma ExampleSignatureWellFormed(command: string)
    ensures WellFormed(Config("VID_1A2B", "PID_3C4D", command))
  {
    assert "VID_1A2B"[..4] == VendorTag && "PID_3C4D"[..4] == ProductTag;
  }

  /** With signature 1A2B:3C4D, an empty device ID followed by one holding
      only the vendor token launches nothing. */
  lemma ExampleArrivalsIgnored(command: string)
    ensures Launches(Config("VID_1A2B", "PID_3C4D", command), ["", "USB\\VID_1A2B\\5&1"]) == []
  {
    var cfg := Config("VID_1A2B", "PID_3C4D", command);
    var devices := ["", "USB\\VID_1A2B\\5&1"];
    ExampleSignatureWellFormed(command);
    assert 'P' !in devices[1];
    MatchesCaseSensitive(devices[0], cfg);
    MatchesCaseSensitive(devices[1], cfg);
    LaunchesNoMatch(cfg, devices);
  }
}
