/** Dispatch over the ingestible image types (server/internal/httpserver/images.go, stripImageMetadata). */
module ImageStripper {
  import opened Bytes
  import J = JpegStripper
  import P = PngStripper
  import W = WebPStripper

  ghost function Strip(mediaType: string, data: seq<byte>): seq<byte> {
    if mediaType == "image/jpeg" then J.Strip(data)
    else if mediaType == "image/png" then P.Strip(data)
    else if mediaType == "image/webp" then W.Strip(data)
    else data
  }

  /** For every media type and every byte string: idempotent, and never longer. */
  lemma StripIdempotent(mediaType: string, data: seq<byte>)
    ensures Strip(mediaType, Strip(mediaType, data)) == Strip(mediaType, data)
    ensures |Strip(mediaType, data)| <= |data|
  {
    hide J.Strip;
    hide P.Strip;
    hide W.Strip;
    if mediaType == "image/jpeg" { J.StripIdempotent(data); }
    if mediaType == "image/png" { P.StripIdempotent(data); }
    if mediaType == "image/webp" { W.StripIdempotent(data); }
  }

  method StripImageMetadata(mediaType: string, data: seq<byte>) returns (out: seq<byte>)
    ensures out == Strip(mediaType, data)
    ensures mediaType == "image/jpeg" ==> out == J.Strip(data)
    ensures mediaType == "image/png" ==> out == P.Strip(data)
    ensures mediaType == "image/webp" ==> out == W.Strip(data)
    ensures mediaType !in {"image/jpeg", "image/png", "image/webp"} ==> out == data
  {
    if mediaType == "image/jpeg" {
      out := J.StripJpeg(data);
    } else if mediaType == "image/png" {
      out := P.StripPng(data);
    } else if mediaType == "image/webp" {
      out := W.StripWebP(data);
    } else {
      out := data;
    }
  }
}
