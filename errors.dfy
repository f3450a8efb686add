/**
 * The error type of the PaPiRus driver: the faults the display reports in its
 * state file, plus a catch-all carrying any other state text, and the
 * human-readable message of each.
 */
module Errors {

  /** What went wrong with the display. */
  datatype ErrorKind =
    | DisplayUnsupportedCog        // chip on glass not supported by the driver
    | DisplayPanelBroken           // the panel is broken
    | DisplayDcFailed              // voltage pump level too low
    | DisplayUnknown               // any other fault the display itself reports
    | UnexpectedError(state: string) // a state text the driver does not know

  /** The driver's error: a boxed kind. */
  datatype Error = Error(kind: ErrorKind)

  datatype Option<T> = None | Some(value: T)

  const UnsupportedCogMessage: string := "You are using an unsupported chip on glass"
  const PanelBrokenMessage: string := "Your panel is broken, please replace it"
  // the two literals join into the one-line message of the DcFailed kind
  const DcFailedMessage: string := "Voltage to low, check if the power supply " + "is working properly and fit for the screen"
  const UnknownMessage: string := "An unkown error has occured with the Display"
  const UnexpectedPrefix: string := "An unexpected error has occured: "

  /** `Error::new`: the kind is kept unchanged. */
  function NewError(kind: ErrorKind): (e: Error)
    ensures e.kind == kind
  {
    Error(kind)
  }

  /** `Error::source`: no error of the driver wraps another one. */
  function Source(e: Error): (s: Option<Error>)
    ensures s == None
  {
    match e.kind
    case DisplayUnsupportedCog => None
    case DisplayPanelBroken => None
    case DisplayDcFailed => None
    case DisplayUnknown => None
    case UnexpectedError(_) => None
  }

  /** The `Display` text of an error. */
  function Message(e: Error): (m: string)
    ensures |m| > 0
    ensures e.kind.UnexpectedError? ==> |UnexpectedPrefix| <= |m| && m[..|UnexpectedPrefix|] == UnexpectedPrefix
  {
    match e.kind
    case DisplayUnsupportedCog => UnsupportedCogMessage
    case DisplayPanelBroken => PanelBrokenMessage
    case DisplayDcFailed => DcFailedMessage
    case DisplayUnknown => UnknownMessage
    case UnexpectedError(state) => UnexpectedPrefix + state
  }

  /** The message of an unexpected state is the fixed prefix followed by the state text, verbatim. */
  lemma UnexpectedMessage(state: string)
    ensures Message(NewError(UnexpectedError(state))) == UnexpectedPrefix + state
    ensures Message(NewError(UnexpectedError(state)))[|UnexpectedPrefix|..] == state
  {
    var m := UnexpectedPrefix + state;
    assert m[|UnexpectedPrefix|..] == state;
  }

  /** The four fixed kinds have four different messages. */
  lemma FixedMessagesDistinct()
    ensures Message(Error(DisplayUnsupportedCog)) != Message(Error(DisplayPanelBroken))
    ensures Message(Error(DisplayUnsupportedCog)) != Message(Error(DisplayDcFailed))
    ensures Message(Error(DisplayUnsupportedCog)) != Message(Error(DisplayUnknown))
    ensures Message(Error(DisplayPanelBroken)) != Message(Error(DisplayDcFailed))
    ensures Message(Error(DisplayPanelBroken)) != Message(Error(DisplayUnknown))
    ensures Message(Error(DisplayDcFailed)) != Message(Error(DisplayUnknown))
  {
    assert |UnsupportedCogMessage| == 42 && |PanelBrokenMessage| == 39;
    assert |DcFailedMessage| == 84 && |UnknownMessage| == 44;
  }

  /** No fixed message starts like an unexpected-state message. */
  lemma FixedMessageNotUnexpected(kind: ErrorKind, state: string)
    requires !kind.UnexpectedError?
    ensures Message(Error(kind)) != UnexpectedPrefix + state
  {
    var m, u := Message(Error(kind)), UnexpectedPrefix + state;
    assert u[0] == 'A' && u[5] == 'e';
    match kind
    case DisplayUnsupportedCog => assert m[0] == 'Y';
    case DisplayPanelBroken => assert m[0] == 'Y';
    case DisplayDcFailed => assert m[0] == 'V';
    case DisplayUnknown => assert m[5] == 'k';
  }

  /** Different errors print differently: the message determines the error. */
  lemma MessageInjective(a: Error, b: Error)
    requires Message(a) == Message(b)
    ensures a == b
  {
    match a.kind
    case UnexpectedError(s) =>
      match b.kind {
        case UnexpectedError(t) =>
          UnexpectedMessage(s);
          UnexpectedMessage(t);
        case _ =>
          FixedMessageNotUnexpected(b.kind, s);
      }
    case _ =>
      if b.kind.UnexpectedError? {
        FixedMessageNotUnexpected(a.kind, b.kind.state);
      } else {
        FixedMessagesDistinct();
      }
  }
}
