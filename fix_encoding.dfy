/** `fix_encoding.py`: re-encoding a Python source file that was saved as
    UTF-16 into UTF-8. The codecs are parameters: `decode` is
    `bytes.decode("utf-16")` (None when it raises) and `encode` is the UTF-8
    encoding `write_text` applies. */
module FixEncoding {
  import opened Wrappers

  newtype byte = x: int | 0 <= x < 0x100

  /** `b.startswith(prefix)`. */
  predicate StartsWith(b: seq<byte>, prefix: seq<byte>)
  {
    |prefix| <= |b| && b[..|prefix|] == prefix
  }

  /** The two byte order marks of UTF-16, little-endian and big-endian
      (section 3.2 of RFC 2781). */
  const BOM_LE: seq<byte> := [0xFF, 0xFE]
  const BOM_BE: seq<byte> := [0xFE, 0xFF]

  /** `is_utf16_bom(b)`: only content of two bytes or more can start with
      a mark. */
  predicate IsUtf16Bom(b: seq<byte>): (r: bool)
    ensures r ==> |b| >= 2
  {
    StartsWith(b, BOM_LE) || StartsWith(b, BOM_BE)
  }

  /** `b` starts with FF FE or with FE FF. */
  lemma IsUtf16BomSpec(b: seq<byte>)
    ensures IsUtf16Bom(b) <==> |b| >= 2 && ((b[0] == 0xFF && b[1] == 0xFE) || (b[0] == 0xFE && b[1] == 0xFF))
  {
    if |b| >= 2 {
      assert b[..2] == [b[0], b[1]];
    }
  }

  /** Fewer than two bytes never carry a mark. */
  lemma ShortHasNoBom(b: seq<byte>)
    requires |b| < 2
    ensures !IsUtf16Bom(b)
  {
  }

  /** Python's `data[:4]`. */
  function Head(data: seq<byte>): (r: seq<byte>)
    ensures |r| <= 4 && r <= data
  {
    if |data| <= 4 then data else data[..4]
  }

  /** Testing the first four bytes is testing the whole content. */
  lemma BomOfHead(data: seq<byte>)
    ensures IsUtf16Bom(Head(data)) == IsUtf16Bom(data)
  {
    IsUtf16BomSpec(data);
    IsUtf16BomSpec(Head(data));
    if |data| >= 2 {
      assert Head(data)[0] == data[0] && Head(data)[1] == data[1];
    }
  }

  /** `b"\x00" in data or is_utf16_bom(data[:4])`. */
  predicate NeedsFix(data: seq<byte>)
  {
    0 in data || IsUtf16Bom(Head(data))
  }

  /** A file needs fixing exactly when it holds a zero byte or starts with
      a UTF-16 byte order mark. */
  lemma NeedsFixSpec(data: seq<byte>)
    ensures NeedsFix(data) <==> (exists i :: 0 <= i < |data| && data[i] == 0) || IsUtf16Bom(data)
  {
    BomOfHead(data);
  }

  /** What `fix_file` reports: the `[fixed]` line, the `[skip]` line, or
      nothing. */
  datatype FixOutcome = Fixed | Skipped | Untouched

  /** `fix_file(p)` on a file holding `data`: the report and the bytes the
      file holds afterwards. */
  function FixResult(data: seq<byte>, decode: seq<byte> -> Option<string>, encode: string -> seq<byte>): (FixOutcome, seq<byte>)
  {
    if !NeedsFix(data) then (Untouched, data)
    else match decode(data)
      case None => (Skipped, data)
      case Some(text) => (Fixed, encode(text))
  }

  /** A file is rewritten only when it needs fixing, and then it holds the
      UTF-8 encoding of its UTF-16 decoding; a file that does not decode is
      skipped and keeps its bytes. */
  lemma FixResultSpec(data: seq<byte>, decode: seq<byte> -> Option<string>, encode: string -> seq<byte>)
    ensures FixResult(data, decode, encode).1 != data ==> NeedsFix(data) && FixResult(data, decode, encode).0 == Fixed
    ensures FixResult(data, decode, encode).0 == Fixed <==> NeedsFix(data) && decode(data).Some?
    ensures FixResult(data, decode, encode).0 == Fixed ==> FixResult(data, decode, encode).1 == encode(decode(data).value)
    ensures FixResult(data, decode, encode).0 != Fixed ==> FixResult(data, decode, encode).1 == data
  {
  }

  /** A plain (ASCII or UTF-8) file without zero bytes or a mark is never
      touched, whatever the codecs do. */
  lemma CleanFileUntouched(data: seq<byte>, decode: seq<byte> -> Option<string>, encode: string -> seq<byte>)
    requires forall i :: 0 <= i < |data| ==> data[i] != 0
    requires !IsUtf16Bom(data)
    ensures FixResult(data, decode, encode) == (Untouched, data)
  {
    NeedsFixSpec(data);
  }

  /** A file on disk. */
  class TextFile {
    var bytes: seq<byte>

    constructor (data: seq<byte>)
      ensures bytes == data
    {
      bytes := data;
    }

    /** `fix_file(p)`: `read_bytes`, the test, and `write_text` on success. */
    method FixFile(decode: seq<byte> -> Option<string>, encode: string -> seq<byte>) returns (outcome: FixOutcome)
      modifies this
      ensures (outcome, bytes) == FixResult(old(bytes), decode, encode)
    {
      var data := bytes;
      if 0 in data || IsUtf16Bom(Head(data)) {
        var text := decode(data);
        if text.Some? {
          bytes := encode(text.value);
          outcome := Fixed;
        } else {
          outcome := Skipped;
        }
      } else {
        outcome := Untouched;
      }
    }
  }
}
