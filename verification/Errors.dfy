/** The errors a transport or a session reports. */
module Errors {
  import opened Bytes
  import opened Proto
  import opened HidFrame
  import opened Crypto

  datatype Error =
    | Transport
    | Frame(frame: FrameError)
    | Applet(applet: OtpError)
    | Parse(parse: ParseError)
    | Encrypt(encrypt: EncryptError)
    | Pcsc
    | EmptyResponse

  /** The errors a transport ends a transmit with. */
  predicate IsLinkError(e: Error) {
    e == Transport || e.Frame? || e == Applet(ButtonPressRequired) || e == EmptyResponse || e == Pcsc ||
    e == Parse(Malformed)
  }

  /** What a transmit returns: response data and status word, or an error. */
  type Response = Result<(seq<byte>, u16), Error>
}
