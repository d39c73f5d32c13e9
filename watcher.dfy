/** The OnUSBConnect form object itself: the fields its constructor fills in
    and the two handlers that read them afterwards. */
module Watcher {
  import opened Strings
  import opened UsbTrigger

  /** Where the constructor leaves the application. */
  datatype Status =
    | Watching                     // tray icon shown and the device watcher started
    | Exited(reason: ConfigError)  // message box shown and the application asked to exit

  class OnUsbConnect {
    /** The command-line arguments the object was built from. */
    ghost var Args: seq<string>
    var vendorID: string
    var productID: string
    var commandToRun: string
    var status: Status
    /** The `Arguments` of every cmd.exe process started so far, oldest first. */
    var launched: seq<string>

    /** The fields as one signature value. */
    function Current(): Config
      reads this
    {
      Config(vendorID, productID, commandToRun)
    }

    /** The object invariant: the fields hold exactly what the arguments
        configure, or the start-up error they caused. */
    ghost predicate Valid()
      reads this
    {
      match ParseArgs(Args)
      case Ok(cfg) => status == Watching && Current() == cfg
      case Err(e) => status == Exited(e) && launched == []
    }

    /** Reads the arguments: gives up with a usage error on fewer than two,
        with a format error unless the upper-cased first argument splits on
        ':' into exactly two parts, and otherwise stores the tagged parts and
        the joined command and starts watching. */
    constructor (args: seq<string>)
      ensures Valid() && Args == args && launched == []
      ensures status == Exited(Usage) <==> |args| < 2
      ensures status == Watching ==> WellFormed(Current())
    {
      Args := args;
      launched := [];
      vendorID, productID, commandToRun := "", "", "";
      if |args| < 2 {
        status := Exited(Usage);
      } else {
        var ids := Split(ToUpper(args[0]), ':');
        if |ids| != 2 {
          status := Exited(InvalidFormat);
        } else {
          vendorID := VendorTag + ids[0];
          productID := ProductTag + ids[1];
          commandToRun := Join(" ", args[1..]);
          status := Watching;
        }
      }
    }

    /** Handles one arriving device: every device ID holding both tokens
        starts the command, however often it arrives. */
    method OnUsbEvent(deviceID: string)
      requires Valid() && status == Watching
      modifies this`launched
      ensures Valid()
      ensures launched == old(launched) + Launches(Current(), [deviceID])
    {
      if Contains(deviceID, vendorID) && Contains(deviceID, productID) {
        Trigger();
      }
    }

    /** Starts `cmd.exe /c <command>`; the menu item calls it directly. */
    method Trigger()
      requires Valid() && status == Watching
      modifies this`launched
      ensures Valid()
      ensures launched == old(launched) + [ShellArguments(commandToRun)]
    {
      launched := launched + [ShellArguments(commandToRun)];
    }
  }
}
