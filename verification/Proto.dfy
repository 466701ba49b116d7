/** Command APDUs, their device-side reading, and the applet's status words. */
module Proto {
  import opened Bytes

  const GET_ECDH_PUBKEY: seq<byte> := [0x80, 0xC5, 0x01, 0x00]
  const ENUM_CODES: seq<byte> := [0x80, 0xC5, 0x05, 0x00]
  const ENUM_CODES_CONTINUE: seq<byte> := [0x80, 0xC5, 0x05, 0x01]
  const WRITE_SEED: seq<byte> := [0x80, 0xC5, 0x05, 0x02]

  const SUB_READ_ONE: byte := 0x01
  const SUB_READ_ALL: byte := 0x03

  const SW_OK: u16 := 0x9000
  const SW_ENTRY_NOT_FOUND: u16 := 0x6A80
  const SW_ENTRY_NOT_FOUND_ALT: u16 := 0x6A83
  const SW_NOT_ENOUGH_SPACE: u16 := 0x6A84
  const SW_HID_NOT_SUPPORTED: u16 := 0x6A86
  const SW_BUTTON_TIMEOUT: u16 := 0x6FF9

  datatype OtpError =
    | EntryNotFound
    | NotEnoughSpace
    | ButtonPressRequired
    | HidNotSupported
    | BadStatusCode(sw: u16)

  datatype ParseError = Truncated | Malformed | Invalid

  /** Only 9000 is success; only 6A80 and 6A83 mean an empty token; no two others are confused. */
  function CheckSw(sw: u16): (r: Result<(), OtpError>)
    ensures r.Ok? <==> sw == 0x9000
    ensures r == Err(EntryNotFound) <==> sw == 0x6A80 || sw == 0x6A83
    ensures r == Err(NotEnoughSpace) <==> sw == 0x6A84
    ensures r == Err(ButtonPressRequired) <==> sw == 0x6FF9
    ensures r == Err(HidNotSupported) <==> sw == 0x6A86
    ensures r.Err? && r.error.BadStatusCode? ==> r.error.sw == sw
  {
    if sw == SW_OK then Ok(())
    else if sw == SW_ENTRY_NOT_FOUND || sw == SW_ENTRY_NOT_FOUND_ALT then Err(EntryNotFound)
    else if sw == SW_NOT_ENOUGH_SPACE then Err(NotEnoughSpace)
    else if sw == SW_BUTTON_TIMEOUT then Err(ButtonPressRequired)
    else if sw == SW_HID_NOT_SUPPORTED then Err(HidNotSupported)
    else Err(BadStatusCode(sw))
  }

  /** An extended-length command; an empty body leaves the bare header. */
  function Apdu(header: seq<byte>, data: seq<byte>): seq<byte>
    requires |header| == 4 && |data| <= 0xFFFF
  {
    if data == [] then header else header + [0x00] + U16Be(|data|) + data
  }

  method BuildApdu(header: seq<byte>, data: seq<byte>) returns (out: seq<byte>)
    requires |header| == 4 && |data| <= 0xFFFF
    ensures out == Apdu(header, data)
  {
    var len := |data|;
    out := header;
    if len > 0 {
      out := out + [0x00];
      out := out + [len / 0x100];
      out := out + [len % 0x100];
      out := out + data;
    }
  }

  /** How a device reads an extended-length command: header and body, if the length is consistent. */
  function Unwrap(apdu: seq<byte>): Option<(seq<byte>, seq<byte>)> {
    if |apdu| == 4 then Some((apdu, []))
    else if |apdu| > 7 && apdu[4] == 0x00 && U16OfBe(apdu[5], apdu[6]) == |apdu| - 7
    then Some((apdu[..4], apdu[7..]))
    else None
  }

  /** A command reads as a header and a body exactly when it was built from them. */
  lemma UnwrapIffBuilt(apdu: seq<byte>, header: seq<byte>, data: seq<byte>)
    ensures Unwrap(apdu) == Some((header, data)) <==>
            |header| == 4 && |data| <= 0xFFFF && apdu == Apdu(header, data)
  {
    if |header| == 4 && 0 < |data| <= 0xFFFF && apdu == Apdu(header, data) {
      assert apdu[..4] == header && apdu[7..] == data;
    }
    if |apdu| > 7 && Unwrap(apdu) == Some((header, data)) {
      assert apdu == apdu[..4] + [apdu[4], apdu[5], apdu[6]] + apdu[7..];
      assert U16Be(|data|) == [apdu[5], apdu[6]];
    }
  }

  const ERASE_ALL: seq<byte> := Apdu(WRITE_SEED, [])
  const GET_PUBKEY: seq<byte> := GET_ECDH_PUBKEY + [0x00]

  /** The READ_ALL request body. */
  function EnumAllBody(timestamp: u64): (s: seq<byte>)
    ensures |s| == 9
  {
    [SUB_READ_ALL] + U64Be(timestamp)
  }

  function EnumAllApdu(timestamp: u64): seq<byte> {
    Apdu(ENUM_CODES, EnumAllBody(timestamp))
  }

  function EnumContinueApdu(timestamp: u64): seq<byte> {
    Apdu(ENUM_CODES_CONTINUE, U64Be(timestamp))
  }

  /** Every byte of an extended-length command. */
  lemma ApduBytes(header: seq<byte>, data: seq<byte>)
    requires |header| == 4 && |data| <= 0xFFFF
    ensures data == [] ==> Apdu(header, data) == header
    ensures var apdu := Apdu(header, data);
            data != [] ==>
              |apdu| == 7 + |data| && apdu[..4] == header && apdu[4] == 0x00 &&
              apdu[5] as int * 0x100 + apdu[6] as int == |data| && apdu[7..] == data
  {
  }

  /** The commands a session sends, byte for byte up to the time and the sealed body. */
  lemma CommandBytes(timestamp: u64)
    ensures GET_PUBKEY == [0x80, 0xC5, 0x01, 0x00, 0x00] && ERASE_ALL == WRITE_SEED == [0x80, 0xC5, 0x05, 0x02]
    ensures EnumAllApdu(timestamp) == [0x80, 0xC5, 0x05, 0x00, 0x00, 0x00, 0x09, 0x03] + U64Be(timestamp)
    ensures EnumContinueApdu(timestamp) == [0x80, 0xC5, 0x05, 0x01, 0x00, 0x00, 0x08] + U64Be(timestamp)
    ensures ENUM_CODES == [0x80, 0xC5, 0x05, 0x00] && SUB_READ_ONE == 0x01
  {
    hide U64Be;
  }
}
