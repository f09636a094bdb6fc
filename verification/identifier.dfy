/** padIdentifier (server/process/preproc.go:125-141): Metadata.Identifier is parsed as an
    unsigned 64-bit decimal and written back zero-padded to at least idLen digits. */
module Identifier {
  import opened Common
  import opened Decimal
  import opened Json

  /** The gjson path `Metadata.Identifier`, as segments and as the sjson path string. */
  const IdPath: seq<string> := ["Metadata", "Identifier"]
  const IdPathText: string := "Metadata.Identifier"

  /** The width Preproc passes to padIdentifier (preproc.go:184). */
  const IdWidth: nat := 8

  function Max(a: nat, b: nat): nat {
    if a < b then b else a
  }

  /** The padded identifier text, or None when strconv.ParseUint rejects the identifier. */
  function PaddedId(idstr: string, width: nat): Option<string> {
    match ParseUint64(idstr)
    case None => None
    case Some(n) => Some(ZeroPad(DecimalOf(n), width))
  }

  /** padIdentifier on the document text: read the identifier, pad it, set it back. */
  function PadIdentifier(doc: string, width: nat, lib: JsonLib): Result<string> {
    var idstr := lib.Get(doc, IdPath);
    match PaddedId(idstr, width)
    case None => Err(BadIdentifier(idstr))
    case Some(p) =>
      match lib.setString(doc, IdPathText, p)
      case None => Err(SetFailed)
      case Some(d) => Ok(d)
  }

  /** An identifier is accepted exactly when it is a non-empty run of ASCII digits below 2^64;
      the padded text then has the same value, is all digits, is `width` long or the plain
      decimal form when that is longer, and ends with that plain form (nothing is cut off). */
  lemma PaddedIdMeaning(idstr: string, width: nat)
    ensures PaddedId(idstr, width).Some? <==>
            idstr != [] && AllDigits(idstr) && ValueOf(idstr) < Uint64Limit
    ensures PaddedId(idstr, width).Some? ==>
            var n := ValueOf(idstr);
            var p := PaddedId(idstr, width).value;
            && AllDigits(p) && ValueOf(p) == n
            && |p| == Max(width, |DecimalOf(n)|)
            && EndsWith(p, DecimalOf(n))
  {
    if PaddedId(idstr, width).Some? {
      var d := DecimalOf(ValueOf(idstr));
      if |d| < width {
        ValueOfLeadingZeros(width - |d|, d);
        assert (Zeros(width - |d|) + d)[width - |d|..] == d;
      }
    }
  }

  /** Padding an already padded identifier gives it back unchanged. */
  lemma PaddedIdIdempotent(idstr: string, width: nat)
    requires PaddedId(idstr, width).Some?
    ensures PaddedId(PaddedId(idstr, width).value, width) == PaddedId(idstr, width)
  {
    PaddedIdMeaning(idstr, width);
    var p := PaddedId(idstr, width).value;
    assert p != [];
  }

  /** `42` is padded to eight digits. */
  lemma PaddedIdPadsExample()
    ensures PaddedId("42", IdWidth) == Some("00000042")
  {
    ParseFortyTwo();
    DecimalFortyTwo();
    assert ZeroPad("42", IdWidth) == Zeros(6) + "42";
    assert Zeros(6) + "42" == "00000042";
  }

  lemma ParseFortyTwo()
    ensures ParseUint64("42") == Some(42)
  {
    assert ValueOf("42") == 42 by {
      assert "42"[..1] == "4";
      assert ""  == "4"[..0];
    }
  }

  lemma DecimalFortyTwo()
    ensures DecimalOf(42) == "42"
  {
  }

  /** A word, the empty string and a signed number are rejected. */
  lemma PaddedIdRejectsExamples()
    ensures PaddedId("abc", IdWidth) == None
    ensures PaddedId("", IdWidth) == None
    ensures PaddedId("-1", IdWidth) == None
  {
    assert !IsDigit("abc"[0]);
    assert !IsDigit("-1"[0]);
  }

  /** Running padIdentifier on its own output gives the same document, provided the JSON
      library reads back what it set and setting a field to its current value is a no-op. */
  lemma PadIdentifierIdempotent(doc: string, width: nat, lib: JsonLib, padded: string, p: string)
    requires PadIdentifier(doc, width, lib) == Ok(padded)
    requires PaddedId(lib.Get(doc, IdPath), width) == Some(p)
    requires lib.Get(padded, IdPath) == p
    requires lib.setString(padded, IdPathText, p) == Some(padded)
    ensures PadIdentifier(padded, width, lib) == Ok(padded)
  {
    PaddedIdIdempotent(lib.Get(doc, IdPath), width);
  }
}
