# onUSBconnect — a verified model of its string logic

onUSBconnect is a Windows tray program started as
`onusbconnect.exe VENDOR_ID:PRODUCT_ID command`. When a USB device whose
WMI `DeviceID` holds both `VID_<vendor>` and `PID_<product>` arrives, it runs
the command through `cmd.exe /c`. Most of the program is WinForms and WMI
plumbing. This project models the logic underneath, in three modules:

- `Strings` (strings.dfy): the .NET string operations the program relies on,
  over `seq<char>`. These are `ToUpper` (ASCII), `Split` on one character
  (empty pieces kept), `String.Join` and the ordinal `Contains`. Each is
  paired with an independent reference: the colon count, the split/join
  round trips in both directions, and an existential definition of "occurs".
- `UsbTrigger` (usb_trigger.dfy): the constructor's argument checks
  (`ParseArgs`) and the matching test (`Matches`). It also holds the strings
  built for `cmd.exe` (`ShellArguments`) and for the tray (`Label`,
  `TrayText`). `Launches` gives the processes started for a stream of device
  arrivals. The lemmas state what the code promises.
- `Watcher` (watcher.dfy): the form object as a class, `OnUsbConnect`. Its
  fields `vendorID`, `productID` and `commandToRun` are set by the
  constructor. `OnUsbEvent` and `Trigger` read them. A `launched` field
  records the argument string of every `cmd.exe` started.

What the code does, and so what the model does:

- Fewer than two arguments is a usage error.
- The first argument is upper-cased and split on `:`. Anything but exactly
  two parts, meaning anything but exactly one colon, is a format error.
- Empty parts are accepted. `:1234` gives the vendor token `VID_`.
- The command is the remaining arguments joined by single spaces. Quoting is
  lost, so `"a b"` and `a b` configure the same command.
- A device matches when its ID contains both tokens, in any order and at any
  position. The test is case-sensitive: only the signature is upper-cased,
  never the device ID.
- Every matching arrival runs the command. Nothing suppresses repeated
  notifications for the same plug-in.

A richer design for this program would decode raw notifications, key
devices canonically, debounce repeats, match case-insensitively and reject
empty parts. The code does none of these, and the model follows the code.

## Model

| member | source | states |
|---|---|---|
| Strings.ToUpper | onusbconnect.cs:34 | upper-casing keeps the length |
| Strings.ToUpperNoLower | onusbconnect.cs:34 | an upper-cased string holds no lower-case letter |
| Strings.ToUpperSlice | onusbconnect.cs:34 | upper-casing a slice is slicing the upper case, so each side of the colon is upper-cased on its own |
| Strings.ToUpperKeepsOther | onusbconnect.cs:34 | a character that is not a letter, such as ':', stands in the upper case exactly where it stood before |
| Strings.ToUpperKeepsCount | onusbconnect.cs:34-35 | upper-casing changes no count of a non-letter such as ':', so the part count is decided by the original argument |
| Strings.ToUpperIdempotent | onusbconnect.cs:34 | upper-casing twice is upper-casing once |
| Strings.Split | onusbconnect.cs:34 | `Split(':')` gives one piece more than there are separators and no piece holds the separator |
| Strings.SplitPartChar | onusbconnect.cs:34 | every character of a piece comes from the string that was split |
| Strings.SplitPrefix | onusbconnect.cs:34 | a separator-free text followed by the separator is split off as the first piece, and the rest splits on its own |
| Strings.JoinSplit | onusbconnect.cs:34 | joining the pieces of a split with the separator gives back the input |
| Strings.SplitJoin | onusbconnect.cs:34 | splitting a join of separator-free pieces gives back the pieces |
| Strings.SplitAtSingle | onusbconnect.cs:34-35 | a string with exactly one separator splits into exactly the text before it and the text after it |
| Strings.Join | onusbconnect.cs:44 | `String.Join` of no parts is empty; otherwise it starts with the first part and its length is the parts' lengths plus one separator between each two |
| Strings.Contains | onusbconnect.cs:88 | `Contains` is true exactly when the substring occurs at some index of the string |
| Strings.ContainsTransitive | onusbconnect.cs:88 | whatever a contained string contains is contained too |
| Strings.ContainsChar | onusbconnect.cs:88 | every character of a contained string occurs in the container |
| UsbTrigger.ParseArgs | onusbconnect.cs:27-44 | usage error exactly when there are fewer than two arguments; format error exactly when the first argument does not hold exactly one colon; on success both tokens are tagged, colon-free and upper-case |
| UsbTrigger.UpperSplit | onusbconnect.cs:34-35 | the upper-cased first argument splits into one more part than it has colons, and no part holds a colon or a lower-case letter |
| UsbTrigger.ParseArgsTokens | onusbconnect.cs:34-44 | with one colon at k, vendorID is "VID_" plus the upper-cased text before it, productID is "PID_" plus the upper-cased text after it, and the command is the other arguments joined |
| UsbTrigger.ParseArgsLeadingColon | onusbconnect.cs:34-43 | a leading colon is accepted and leaves just "VID_" as the vendor token |
| UsbTrigger.ParseArgsTrailingColon | onusbconnect.cs:34-43 | a trailing colon is accepted and leaves just "PID_" as the product token |
| UsbTrigger.ParseArgsCaseInsensitive | onusbconnect.cs:34 | upper-casing the signature argument beforehand changes no outcome |
| UsbTrigger.ParseArgsUpperSignature | onusbconnect.cs:34-44 | an upper-case signature `V:P` with one more argument configures exactly `VID_V`, `PID_P` and that argument |
| UsbTrigger.ParseArgsCommand | onusbconnect.cs:44 | the command is the arguments after the first joined by spaces; with two arguments it is the second verbatim; its length is their total length plus one per gap |
| UsbTrigger.ParseArgsJoinsAcrossSpaces | onusbconnect.cs:44 | one argument `x y` and the two arguments `x`, `y` configure the same command |
| UsbTrigger.Matches | onusbconnect.cs:88 | a device ID matches exactly when the vendor token occurs in it and the product token occurs in it |
| UsbTrigger.MatchesAnyOrder | onusbconnect.cs:88 | the two tokens match in either order and with anything around or between them |
| UsbTrigger.MatchesHasTags | onusbconnect.cs:88 | a matching device ID contains the literal "VID_" and "PID_" |
| UsbTrigger.MatchesCaseSensitive | onusbconnect.cs:86-88 | a device ID without an upper-case 'V', or without an upper-case 'P', never matches a configured signature |
| UsbTrigger.EmptyDeviceIDNeverMatches | onusbconnect.cs:86-88 | an empty device ID never matches a configured signature |
| UsbTrigger.ShellArguments | onusbconnect.cs:98 | the cmd.exe arguments start with "/c " and the rest is exactly the command |
| UsbTrigger.Label | onusbconnect.cs:47 | the menu label starts with the vendor token and is one character longer than the two tokens together |
| UsbTrigger.TrayText | onusbconnect.cs:53 | the tooltip is the title and blank line followed by the label |
| UsbTrigger.LabelShape | onusbconnect.cs:42-47 | for a configured signature the label starts with "VID_", contains ":PID_", and splits on ':' back into the two tokens |
| UsbTrigger.Launches | onusbconnect.cs:88-98 | a stream of arrivals starts at most one process per arrival, each with the arguments "/c " plus the command |
| UsbTrigger.LaunchesAppend | onusbconnect.cs:88 | arrivals are handled one at a time: the launches of two stretches of arrivals are concatenated |
| UsbTrigger.LaunchesEveryMatch | onusbconnect.cs:88 | when every arrival matches, every arrival starts a process |
| UsbTrigger.LaunchesNoMatch | onusbconnect.cs:88 | when no arrival matches, no process starts |
| UsbTrigger.RepeatedArrivalsEachLaunch | onusbconnect.cs:88 | three arrivals of the same matching device start three processes |
| UsbTrigger.AdjacentTokensLaunch | onusbconnect.cs:88-98 | a device ID holding the vendor token, '&' and the product token, with anything before and after, starts "/c " plus the command exactly once |
| UsbTrigger.ExampleArrivalLaunches | onusbconnect.cs:88-98 | with VID_1A2B and PID_3C4D, the device ID `\\?\USB#VID_1A2B&PID_3C4D#5&abc#{guid}` starts "/c " plus the command once |
| UsbTrigger.ExampleArrivalsIgnored | onusbconnect.cs:88 | with VID_1A2B and PID_3C4D, an empty device ID and one holding only the vendor token start nothing |
| Watcher.OnUsbConnect.constructor | onusbconnect.cs:25-44 | the fields hold exactly what `ParseArgs` configures, or the object has exited with the error it reports; usage error exactly when there are fewer than two arguments; a watching object's tokens are well formed |
| Watcher.OnUsbConnect.OnUsbEvent | onusbconnect.cs:83-89 | one arrival appends exactly the launches `Launches` gives for it and keeps the invariant |
| Watcher.OnUsbConnect.Trigger | onusbconnect.cs:91-104 | appends one launch with the arguments "/c " plus the configured command |

## Left out

- The WinForms surface is not modelled: the tray icon, the context menu, `OnLoad` hiding the form, `Application.Run` and the message boxes (onusbconnect.cs:29, 37, 46-58, 106-116). `Status` records only which error the constructor reported. Whether the process then really ends after `Application.Exit` is decided by the WinForms message loop, which is not part of this model.
- TrayText: the framework's limit on the length of `NotifyIcon.Text` is not modelled. A long signature can make that assignment throw at start-up.
- The WMI subscription and its WQL query (onusbconnect.cs:63-81) are not modelled. A device arrival is the `DeviceID` string it hands over. Reading `TargetInstance` and `DeviceID` out of the event (onusbconnect.cs:85-86) is opaque library code, and a missing `DeviceID` is not modelled.
- `Process.Start` and the other `ProcessStartInfo` settings (onusbconnect.cs:95-103) are not modelled. The model keeps only the argument string, appended to `launched`.
- `Console.WriteLine` logging and the icon extraction (onusbconnect.cs:54, 87, 93) are I/O.
- ToUpper: culture-specific upper-casing is not modelled. Only ASCII letters are upper-cased, so non-ASCII letters are left as they are.
- The C# fields stay `null` on the error paths. The model has no null strings: they are empty, and the status says why nothing else was set. On those paths neither handler is ever wired up, so nothing reads them.
- Concurrency is not modelled. WMI delivers events on a worker thread while the menu calls `Trigger` on the UI thread. The model treats calls as happening one after another.
