/** The container both halves of the codec agree on: header bytes, one zero
    byte, then the packed payload. The header record is turned into bytes
    (`JSON.stringify` followed by `TextEncoder`) and back (`TextDecoder`
    followed by `JSON.parse`) by functions the model takes as parameters. */
module Container {
  import opened CodecTypes

  /** The header record `{ padding, codes, originalFileName }`. */
  datatype Header = Header(padding: int, codes: map<Byte, Bits>, originalFileName: string)

  /** What parsing the header text yields: each field may be absent (or
      falsy, for `codes`). A parsed value that is not an object, or is
      `null`, has no fields at all. */
  datatype RawHeader = RawHeader(padding: Option<int>, codes: Option<map<Byte, Bits>>, originalFileName: Option<string>)

  /** The fields of a header as the parser gives them back. */
  function Raw(h: Header): RawHeader {
    RawHeader(Some(h.padding), Some(h.codes), Some(h.originalFileName))
  }

  /** Header bytes, the delimiter byte 0, payload bytes. */
  function Frame(header: seq<Byte>, payload: seq<Byte>): seq<Byte> {
    header + [0] + payload
  }

  /** Dropping the last byte of a frame with a payload drops the last
      payload byte. */
  lemma FrameDropLast(header: seq<Byte>, payload: seq<Byte>)
    requires |payload| > 0
    ensures var frame := Frame(header, payload);
      frame[..|frame| - 1] == Frame(header, payload[..|payload| - 1])
  {
    var frame := Frame(header, payload);
    var cut := payload[..|payload| - 1];
    assert frame == (header + [0]) + cut + [payload[|payload| - 1]];
  }

  /** `fullData.indexOf(0)`: the position of the first zero byte, or -1. */
  function IndexOfZero(s: seq<Byte>): (i: int)
    ensures -1 <= i < |s|
    ensures i == -1 <==> 0 !in s
    ensures i >= 0 ==> s[i] == 0 && 0 !in s[..i]
  {
    if s == [] then -1
    else if s[0] == 0 then 0
    else
      var j := IndexOfZero(s[1..]);
      assert j >= 0 ==> s[..j + 1] == [s[0]] + s[1..][..j];
      if j == -1 then -1 else j + 1
  }

  /** Splitting a container at its first zero byte into header bytes and
      payload bytes, or the "missing header delimiter" error when it has no
      zero byte. */
  function SplitContainer(data: seq<Byte>): (r: Result<(seq<Byte>, seq<Byte>)>)
    ensures r.Err? <==> 0 !in data
    ensures r.Err? ==> r.error == MissingDelimiter
    ensures r.Ok? ==> Frame(r.value.0, r.value.1) == data && 0 !in r.value.0
  {
    var i := IndexOfZero(data);
    if i == -1 then Err(MissingDelimiter)
    else
      assert data == data[..i] + [0] + data[i + 1..];
      Ok((data[..i], data[i + 1..]))
  }

  /** A header without a zero byte is split back off exactly, whatever the
      payload holds (zero bytes included). */
  lemma SplitFrame(header: seq<Byte>, payload: seq<Byte>)
    requires 0 !in header
    ensures SplitContainer(Frame(header, payload)) == Ok((header, payload))
  {
    var data := Frame(header, payload);
    assert data[|header|] == 0;
    assert data[..|header|] == header;
    assert data[|header| + 1..] == payload;
  }

  /** The check that every field of the header is there: a header that did
      not parse is a syntax error; one without `padding`, `codes` or
      `originalFileName` is "malformed header structure". */
  function CheckHeader(parsed: Option<RawHeader>): (r: Result<Header>)
    ensures parsed.None? ==> r == Err(HeaderSyntax)
    ensures parsed.Some? ==> (r.Err? <==>
      parsed.value.padding.None? || parsed.value.codes.None? || parsed.value.originalFileName.None?)
    ensures parsed.Some? && r.Err? ==> r.error == MalformedHeader
    ensures r.Ok? ==> parsed == Some(Raw(r.value))
  {
    match parsed
    case None => Err(HeaderSyntax)
    case Some(RawHeader(Some(padding), Some(codes), Some(name))) => Ok(Header(padding, codes, name))
    case Some(_) => Err(MalformedHeader)
  }
}
