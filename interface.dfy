/**
 * The PaPiRus display's file interface. The driver talks to the panel through
 * files under one root directory (by default /dev/epd): it writes a one-letter
 * command to `command`, the packed image to `BE/display`, and reads the
 * panel's `version`, `current` image and `error` state.
 *
 * File I/O is abstract: the writes the driver makes are recorded, in order,
 * in a log, and reads are answered from a given map from paths to contents.
 */
module Interface {
  import opened Errors

  /** The outcome of reading the display state. */
  datatype Result<T> = Ok(value: T) | Err(error: Error)

  /** A `u8`. The interface only moves bytes around, so they are plain numbers here. */
  type Byte = b: int | 0 <= b < 0x100

  /** One write of `bytes` to the file at `path` (the file is opened for writing, written and flushed). */
  datatype Write = Write(path: string, bytes: seq<Byte>)

  /** The root the default display uses. */
  const DefaultInterface: string := "/dev/epd"

  /** The files under the root. */
  const CommandFile: string := "command"
  const DisplayFile: string := "BE/display"
  const VersionFile: string := "version"
  const CurrentDisplayFile: string := "current"
  const StateFile: string := "error"

  /** The commands, one letter each. */
  const UpdateCommand: string := "U"
  const PartialUpdateCommand: string := "P"
  const FastUpdateCommand: string := "F"
  const ClearCommand: string := "C"

  /** The state texts the display reports. */
  const OkState: string := "Ok"
  const UnsupportedCogState: string := "Unsupported COG"
  const PanelBrokenState: string := "Panel broken"
  const DcFailedState: string := "DC Failed"
  const UnknownState: string := "Unknown"

  // ---------------------------------------------------------------------------
  // Paths and bytes
  // ---------------------------------------------------------------------------

  /** `format!("{}/{}", root, name)`: the root, a slash, then the file name. */
  function DevicePath(root: string, name: string): (path: string)
    ensures |path| == |root| + 1 + |name|
    ensures path[..|root|] == root && path[|root|] == '/' && path[|root| + 1..] == name
  {
    root + "/" + name
  }

  /** Under one root, different file names give different paths. */
  lemma DevicePathInjective(root: string, a: string, b: string)
    requires DevicePath(root, a) == DevicePath(root, b)
    ensures a == b
  {
    assert a == DevicePath(root, a)[|root| + 1..];
  }

  /** The five files of the interface live at five different paths. */
  lemma DevicePathsDistinct(root: string)
    ensures DevicePath(root, CommandFile) != DevicePath(root, DisplayFile)
    ensures DevicePath(root, CommandFile) != DevicePath(root, VersionFile)
    ensures DevicePath(root, CommandFile) != DevicePath(root, CurrentDisplayFile)
    ensures DevicePath(root, CommandFile) != DevicePath(root, StateFile)
    ensures DevicePath(root, DisplayFile) != DevicePath(root, VersionFile)
    ensures DevicePath(root, DisplayFile) != DevicePath(root, CurrentDisplayFile)
    ensures DevicePath(root, DisplayFile) != DevicePath(root, StateFile)
    ensures DevicePath(root, VersionFile) != DevicePath(root, CurrentDisplayFile)
    ensures DevicePath(root, VersionFile) != DevicePath(root, StateFile)
    ensures DevicePath(root, CurrentDisplayFile) != DevicePath(root, StateFile)
  {
  }

  /** Every character of s is 7-bit ASCII, so that it is one byte in UTF-8. */
  predicate IsAscii(s: string)
  {
    forall i :: 0 <= i < |s| ==> s[i] as int < 0x80
  }

  /** Every byte is 7-bit ASCII, so that the bytes are valid UTF-8 with one character per byte. */
  predicate IsAsciiBytes(bytes: seq<Byte>)
  {
    forall i :: 0 <= i < |bytes| ==> bytes[i] < 0x80
  }

  /** The UTF-8 byte of an ASCII character: its code point. */
  function CharByte(c: char): (b: Byte)
    requires c as int < 0x80
    ensures b < 0x80
  {
    c as int
  }

  /** The character an ASCII byte decodes to in UTF-8: the code point of that value. */
  function ByteChar(b: Byte): (c: char)
    requires b < 0x80
    ensures c as int < 0x80
  {
    b as char
  }

  /** `str::as_bytes` on ASCII text: one byte per character. */
  function AsciiBytes(s: string): (bytes: seq<Byte>)
    requires IsAscii(s)
    ensures |bytes| == |s|
    ensures forall i :: 0 <= i < |s| ==> bytes[i] == CharByte(s[i])
  {
    seq(|s|, i requires 0 <= i < |s| => CharByte(s[i]))
  }

  /** `String::from_utf8` on ASCII bytes: one character per byte. */
  function AsciiString(bytes: seq<Byte>): (s: string)
    requires IsAsciiBytes(bytes)
    ensures |s| == |bytes|
    ensures forall i :: 0 <= i < |bytes| ==> s[i] == ByteChar(bytes[i])
  {
    seq(|bytes|, i requires 0 <= i < |bytes| => ByteChar(bytes[i]))
  }

  /** Encoding then decoding ASCII text gives the text back. */
  lemma AsciiRoundTrip(s: string)
    requires IsAscii(s)
    ensures IsAsciiBytes(AsciiBytes(s)) && AsciiString(AsciiBytes(s)) == s
  {
    var t := AsciiString(AsciiBytes(s));
    forall i | 0 <= i < |s|
      ensures t[i] == s[i]
    {
    }
  }

  /** Decoding then encoding ASCII bytes gives the bytes back. */
  lemma AsciiBytesRoundTrip(bytes: seq<Byte>)
    requires IsAsciiBytes(bytes)
    ensures IsAscii(AsciiString(bytes)) && AsciiBytes(AsciiString(bytes)) == bytes
  {
    var b := AsciiBytes(AsciiString(bytes));
    forall i | 0 <= i < |bytes|
      ensures b[i] == bytes[i]
    {
    }
  }

  /** The command letters as the bytes written: 'U' 0x55, 'P' 0x50, 'F' 0x46, 'C' 0x43. */
  lemma CommandBytes()
    ensures AsciiBytes(UpdateCommand) == [0x55]
    ensures AsciiBytes(PartialUpdateCommand) == [0x50]
    ensures AsciiBytes(FastUpdateCommand) == [0x46]
    ensures AsciiBytes(ClearCommand) == [0x43]
  {
    assert CharByte('U') == 0x55 && CharByte('P') == 0x50;
    assert CharByte('F') == 0x46 && CharByte('C') == 0x43;
  }

  // ---------------------------------------------------------------------------
  // The state classifier
  // ---------------------------------------------------------------------------

  /** `get_display_state`'s match: an exact comparison of the state text with the known states. */
  function DisplayState(state: string): (r: Result<string>)
    ensures r.Ok? <==> state == OkState
    ensures r.Ok? ==> r.value == OkState
    ensures r.Err? && r.error.kind.UnexpectedError? ==> r.error.kind.state == state
  {
    if state == OkState then Ok(OkState)
    else if state == UnsupportedCogState then Err(NewError(DisplayUnsupportedCog))
    else if state == PanelBrokenState then Err(NewError(DisplayPanelBroken))
    else if state == DcFailedState then Err(NewError(DisplayDcFailed))
    else if state == UnknownState then Err(NewError(DisplayUnknown))
    else Err(NewError(UnexpectedError(state)))
  }

  /** The state text a result stands for: the reverse of the classifier. */
  function StateText(r: Result<string>): string
  {
    match r
    case Ok(s) => s
    case Err(e) =>
      match e.kind
      case DisplayUnsupportedCog => UnsupportedCogState
      case DisplayPanelBroken => PanelBrokenState
      case DisplayDcFailed => DcFailedState
      case DisplayUnknown => UnknownState
      case UnexpectedError(s) => s
  }

  /** The classifier loses nothing: the state text can be read back from every result. */
  lemma DisplayStateRoundTrip(state: string)
    ensures StateText(DisplayState(state)) == state
  {
  }

  /** So different state texts are classified differently. */
  lemma DisplayStateInjective(a: string, b: string)
    requires DisplayState(a) == DisplayState(b)
    ensures a == b
  {
    DisplayStateRoundTrip(a);
    DisplayStateRoundTrip(b);
  }

  /** The four faults the display reports map to their own kinds. */
  lemma KnownFaults()
    ensures DisplayState(UnsupportedCogState) == Err(Error(DisplayUnsupportedCog))
    ensures DisplayState(PanelBrokenState) == Err(Error(DisplayPanelBroken))
    ensures DisplayState(DcFailedState) == Err(Error(DisplayDcFailed))
    ensures DisplayState(UnknownState) == Err(Error(DisplayUnknown))
  {
  }

  /** The texts the classifier recognises. */
  predicate IsKnownState(state: string)
  {
    state == OkState || state == UnsupportedCogState || state == PanelBrokenState ||
    state == DcFailedState || state == UnknownState
  }

  /** Any other text is an unexpected error carrying that exact text. */
  lemma Fallback(state: string)
    ensures !IsKnownState(state) <==> DisplayState(state) == Err(Error(UnexpectedError(state)))
  {
    if IsKnownState(state) && state != OkState {
      KnownFaults();
    }
  }

  /** Matching is exact: a different case or a trailing newline falls through to the unexpected error. */
  lemma ExactMatch()
    ensures DisplayState("ok") == Err(Error(UnexpectedError("ok")))
    ensures DisplayState("Ok\n") == Err(Error(UnexpectedError("Ok\n")))
    ensures DisplayState("") == Err(Error(UnexpectedError("")))
  {
    Fallback("ok");
    Fallback("Ok\n");
    Fallback("");
  }

  /** An unexpected state's error message ends with the state text, verbatim. */
  lemma UnexpectedStateMessage(state: string)
    requires !IsKnownState(state)
    ensures DisplayState(state).Err?
    ensures Message(DisplayState(state).error) == UnexpectedPrefix + state
  {
    Fallback(state);
    UnexpectedMessage(state);
  }

  // ---------------------------------------------------------------------------
  // The display
  // ---------------------------------------------------------------------------

  /** A display reached through the files under `interface`; `writes` is every write made so far, oldest first. */
  class PapirusDisplay {
    const interface: string
    var writes: seq<Write>

    /** `PapirusDisplay::new`: the root is stored verbatim. */
    constructor (displayPath: string)
      ensures interface == displayPath && writes == []
    {
      interface := displayPath;
      writes := [];
    }

    /** `PapirusDisplay::default`: the root /dev/epd. */
    constructor Default()
      ensures interface == DefaultInterface && writes == []
    {
      interface := DefaultInterface;
      writes := [];
    }

    /** `execute_command`: the command's bytes, written to the command file. */
    method ExecuteCommand(command: string)
      requires IsAscii(command)
      modifies this
      ensures writes == old(writes) + [Write(DevicePath(interface, CommandFile), AsciiBytes(command))]
    {
      var commandPath := DevicePath(interface, CommandFile);
      writes := writes + [Write(commandPath, AsciiBytes(command))];
    }

    /** `full_update`: writes "U" to the command file. */
    method FullUpdate()
      modifies this
      ensures writes == old(writes) + [Write(DevicePath(interface, CommandFile), [0x55])]
    {
      CommandBytes();
      ExecuteCommand(UpdateCommand);
    }

    /** `partial_update`: writes "P" to the command file. */
    method PartialUpdate()
      modifies this
      ensures writes == old(writes) + [Write(DevicePath(interface, CommandFile), [0x50])]
    {
      CommandBytes();
      ExecuteCommand(PartialUpdateCommand);
    }

    /** `fast_update`: writes "F" to the command file. */
    method FastUpdate()
      modifies this
      ensures writes == old(writes) + [Write(DevicePath(interface, CommandFile), [0x46])]
    {
      CommandBytes();
      ExecuteCommand(FastUpdateCommand);
    }

    /** `clear`: writes "C" to the command file. */
    method Clear()
      modifies this
      ensures writes == old(writes) + [Write(DevicePath(interface, CommandFile), [0x43])]
    {
      CommandBytes();
      ExecuteCommand(ClearCommand);
    }

    /** `write_data`: the bytes, unchanged, written to the display file. */
    method WriteData(data: seq<Byte>)
      modifies this
      ensures writes == old(writes) + [Write(DevicePath(interface, DisplayFile), data)]
    {
      var displayPath := DevicePath(interface, DisplayFile);
      writes := writes + [Write(displayPath, data)];
    }

    /** `read_from_interface`: the whole content of file `name`; `files` is what the file system holds. */
    method ReadFromInterface(files: map<string, seq<Byte>>, name: string) returns (content: seq<Byte>)
      requires DevicePath(interface, name) in files
      ensures content == files[DevicePath(interface, name)]
    {
      var readPath := DevicePath(interface, name);
      content := files[readPath];
    }

    /** `get_version`: the text of the version file. */
    method GetVersion(files: map<string, seq<Byte>>) returns (version: string)
      requires DevicePath(interface, VersionFile) in files
      requires IsAsciiBytes(files[DevicePath(interface, VersionFile)])
      ensures IsAscii(version) && AsciiBytes(version) == files[DevicePath(interface, VersionFile)]
    {
      var bytes := ReadFromInterface(files, VersionFile);
      version := AsciiString(bytes);
      AsciiBytesRoundTrip(bytes);
    }

    /** `get_current_display`: the bytes of the image the panel shows. */
    method GetCurrentDisplay(files: map<string, seq<Byte>>) returns (image: seq<Byte>)
      requires DevicePath(interface, CurrentDisplayFile) in files
      ensures image == files[DevicePath(interface, CurrentDisplayFile)]
    {
      image := ReadFromInterface(files, CurrentDisplayFile);
    }

    /** `get_display_state`: the text of the state file, classified. */
    method GetDisplayState(files: map<string, seq<Byte>>) returns (r: Result<string>)
      requires DevicePath(interface, StateFile) in files
      requires IsAsciiBytes(files[DevicePath(interface, StateFile)])
      ensures IsAscii(StateText(r)) && AsciiBytes(StateText(r)) == files[DevicePath(interface, StateFile)]
      ensures r.Ok? <==> files[DevicePath(interface, StateFile)] == AsciiBytes(OkState)
      ensures r == DisplayState(AsciiString(files[DevicePath(interface, StateFile)]))
    {
      var bytes := ReadFromInterface(files, StateFile);
      var state := AsciiString(bytes);
      r := DisplayState(state);
      DisplayStateRoundTrip(state);
      AsciiBytesRoundTrip(bytes);
      AsciiRoundTrip(OkState);
    }
  }
}
