/**
 * The part of `compress_image` that is not a foreign library call: splitting
 * a data URL into its header ("data:image/png;base64,") and its payload, and
 * the choice between the re-encoded image and the fallback value. Base64
 * decoding, Pillow and the JPEG encoder are one parameter, `Codec`.
 */
module Images {
  import opened Wrappers

  /** The header assumed when the input carries none. */
  const DefaultHeader: string := "data:image/jpeg;base64,"

  /** What the decode/resize/re-encode pipeline yields for a payload it accepts. */
  datatype Encoded = Encoded(full: string, thumbnail: string, size: nat)

  /** Base64 decode, Pillow and JPEG encode; `None` is any exception they raise. */
  type Codec = string -> Option<Encoded>

  /** The dictionary `compress_image` returns: full image, nullable thumbnail, size in bytes. */
  datatype Compressed = Compressed(full: string, thumbnail: Option<string>, size: nat)

  datatype HeaderError = InvalidFormat

  /** Index of the first comma, as `str.split(',', 1)` finds it. */
  function FirstComma(s: string): (r: Option<nat>)
    ensures r.None? <==> ',' !in s
    ensures r.Some? ==> r.value < |s| && s[r.value] == ',' && ',' !in s[..r.value]
  {
    if s == [] then None
    else if s[0] == ',' then Some(0)
    else match FirstComma(s[1..])
      case None => None
      case Some(i) => assert s[1..][..i] == s[1..i + 1]; Some(i + 1)
  }

  /** `s.split(sep, 1)`: one part when `sep` does not occur, else the text before and after its first occurrence. */
  function SplitOnce(s: string): (parts: seq<string>)
    ensures ',' !in s ==> parts == [s]
    ensures ',' in s ==> |parts| == 2 && parts[0] + "," + parts[1] == s && ',' !in parts[0]
  {
    match FirstComma(s)
    case None => [s]
    case Some(i) =>
      assert s[..i] + "," + s[i + 1..] == s by {
        assert s == s[..i] + s[i..i + 1] + s[i + 1..];
      }
      [s[..i], s[i + 1..]]
  }

  /**
   * Lines 202-209 of `compress_image`: the header keeps its comma, the
   * payload is what follows; without a comma the default header is assumed.
   * The `len(parts) != 2` error branch is kept but can never be taken.
   */
  function SplitHeader(s: string): (r: Result<(string, string), HeaderError>)
    ensures r.Ok?
    ensures ',' in s ==> r.value.0 + r.value.1 == s
    ensures ',' in s ==> |r.value.0| > 0 && r.value.0[|r.value.0| - 1] == ',' && ',' !in r.value.0[..|r.value.0| - 1]
    ensures ',' !in s ==> r.value == (DefaultHeader, s)
  {
    if ',' in s then
      var parts := SplitOnce(s);
      if |parts| == 2 then
        var header := parts[0] + ",";
        assert header[..|header| - 1] == parts[0];
        Ok((header, parts[1]))
      else Err(InvalidFormat)
    else Ok((DefaultHeader, s))
  }

  /** The header `SplitHeader` yields; it never fails. */
  function Header(s: string): string {
    SplitHeader(s).value.0
  }

  /** The payload `SplitHeader` yields. */
  function Payload(s: string): string {
    SplitHeader(s).value.1
  }

  /**
   * The `except` branch of `compress_image`. By then `image_data` already
   * names the payload, so the original header is lost and the default one
   * is put in front unless the payload itself holds a comma.
   */
  function Fallback(imageData: string): (r: Compressed)
    ensures ',' in r.full
    ensures r.thumbnail.None? && r.size == 0
  {
    var full := if ',' in imageData then imageData else DefaultHeader + imageData;
    assert ',' !in imageData ==> full[|DefaultHeader| - 1] == ',';
    Compressed(full, None, 0)
  }

  /** `compress_image`: empty input and codec failures fall back; otherwise the codec's output behind the input's header. */
  function CompressImage(imageData: string, codec: Codec): (r: Compressed)
    ensures ',' in r.full
    ensures r.thumbnail.Some? <==> imageData != "" && codec(Payload(imageData)).Some?
    ensures imageData != "" && codec(Payload(imageData)).Some? ==>
      var e := codec(Payload(imageData)).value;
      && r.full == Header(imageData) + e.full
      && r.thumbnail == Some(Header(imageData) + e.thumbnail)
      && r.size == e.size
    ensures imageData == "" ==> r == Compressed(DefaultHeader, None, 0)
    ensures imageData != "" && codec(Payload(imageData)).None? ==> r == Fallback(Payload(imageData))
  {
    if imageData == "" then Fallback(imageData)
    else match SplitHeader(imageData)
      case Err(_) => Fallback(imageData)
      case Ok((header, payload)) =>
        match codec(payload)
        case None => Fallback(payload)
        case Some(e) =>
          HeaderEndsWithComma(imageData);
          Compressed(header + e.full, Some(header + e.thumbnail), e.size)
  }

  /**
   * When the codec rejects the payload, the client's header is lost: a
   * payload without a comma comes back behind the default JPEG header,
   * whatever header the input carried.
   */
  lemma FallbackLosesHeader(h: string, payload: string, codec: Codec)
    requires |h| > 0 && h[|h| - 1] == ',' && ',' !in h[..|h| - 1]
    requires ',' !in payload
    requires codec(payload).None?
    ensures CompressImage(h + payload, codec) == Compressed(DefaultHeader + payload, None, 0)
  {
    SplitAfterHeader(h, payload);
  }

  /** Every header ends with its one and only comma. */
  lemma HeaderEndsWithComma(s: string)
    ensures var h := Header(s); |h| > 0 && h[|h| - 1] == ',' && ',' !in h[..|h| - 1]
  {
    if ',' !in s {
      assert DefaultHeader[..|DefaultHeader| - 1] == "data:image/jpeg;base64";
    }
  }

  /** A header followed by anything splits back into that header and that thing. */
  lemma {:induction false} SplitAfterHeader(h: string, rest: string)
    requires |h| > 0 && h[|h| - 1] == ',' && ',' !in h[..|h| - 1]
    ensures SplitHeader(h + rest) == Ok((h, rest))
  {
    var s := h + rest;
    assert s[|h| - 1] == ',';
    FirstCommaAt(s, |h| - 1);
    assert s[..|h| - 1] == h[..|h| - 1];
    assert s[|h|..] == rest;
    assert h[..|h| - 1] + "," == h;
  }

  /** A comma with none before it is the first comma. */
  lemma {:induction false} FirstCommaAt(s: string, i: nat)
    requires i < |s| && s[i] == ',' && ',' !in s[..i]
    ensures FirstComma(s) == Some(i)
  {
    if i > 0 {
      assert s[0] == s[..i][0];
      assert s[1..][..i - 1] == s[1..i];
      assert ',' !in s[1..][..i - 1] by {
        assert s[1..i] == s[..i][1..];
      }
      FirstCommaAt(s[1..], i - 1);
    }
  }

  /**
   * When the codec accepts the payload, the stored image keeps the header the
   * client sent (or the default one): its header is the input's header, and
   * its payload is exactly what the codec produced.
   */
  lemma CompressKeepsHeader(imageData: string, codec: Codec)
    requires imageData != ""
    requires codec(Payload(imageData)).Some?
    ensures Header(CompressImage(imageData, codec).full) == Header(imageData)
    ensures Payload(CompressImage(imageData, codec).full) == codec(Payload(imageData)).value.full
  {
    HeaderEndsWithComma(imageData);
    SplitAfterHeader(Header(imageData), codec(Payload(imageData)).value.full);
  }
}
