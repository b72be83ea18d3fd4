/**
 * The chat client's framing: each message is sent as a fixed-width header
 * holding the body's byte length in decimal, padded with spaces, then the body.
 */
module ChatClient {
  import opened Wrappers
  import opened Text

  /** Width of the length header in bytes. */
  const Header: nat := 64

  /** The message that asks the server to end the session. */
  const DisconnectMessage: string := "!DISCONNECT"

  /** The disconnect message as the bytes on the wire. */
  function DisconnectBytes(): (d: seq<byte>)
    ensures |d| == |DisconnectMessage|
  {
    [0x21, 0x44, 0x49, 0x53, 0x43, 0x4F, 0x4E, 0x4E, 0x45, 0x43, 0x54]
  }

  /** Those bytes are the ASCII encoding of the disconnect message. */
  lemma DisconnectEncodes()
    ensures IsAscii(DisconnectMessage) && DisconnectBytes() == AsciiBytes(DisconnectMessage)
  {
  }

  lemma DigitsAndSpacesAreAscii(n: nat, k: int)
    ensures IsAscii(NatToString(n) + Spaces(k))
  {
    var s := NatToString(n) + Spaces(k);
    forall i | 0 <= i < |s| ensures s[i] as int < 128 {
      if i < |NatToString(n)| {
        assert IsDigit(s[i]);
      } else {
        assert s[i] == Spaces(k)[i - |NatToString(n)|];
      }
    }
  }

  /** The length field as text: the decimal length, then spaces up to the header width. */
  function HeaderText(n: nat): string {
    NatToString(n) + Spaces(Header - |NatToString(n)|)
  }

  /**
   * The header bytes for a body of `n` bytes. They are exactly 64 bytes when the
   * decimal length fits; a longer number is sent unpadded (`b' ' * k` is empty
   * for a negative `k`).
   */
  function LengthHeader(n: nat): (h: seq<byte>)
    ensures |NatToString(n)| <= Header ==> |h| == Header
    ensures |NatToString(n)| > Header ==> |h| == |NatToString(n)|
  {
    DigitsAndSpacesAreAscii(n, Header - |NatToString(n)|);
    AsciiBytes(HeaderText(n))
  }

  /** `send(msg)`: the header, then the message bytes. */
  function Frame(message: seq<byte>): (f: seq<byte>)
    ensures |f| == |LengthHeader(|message|)| + |message|
  {
    LengthHeader(|message|) + message
  }

  /** The header decodes back to its text. */
  lemma HeaderDecodes(n: nat)
    ensures AsciiText(LengthHeader(n)) == Some(HeaderText(n))
  {
    DigitsAndSpacesAreAscii(n, Header - |NatToString(n)|);
    AsciiRoundTrip(HeaderText(n));
  }

  /** `int()` reads the header text back as the body length, trailing spaces and all. */
  lemma HeaderParses(n: nat)
    ensures ParseInt(HeaderText(n)) == Some(n)
  {
    PaddedNatRoundTrip(n, Header - |NatToString(n)|);
  }
}
