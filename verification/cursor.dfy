/** The page cursor: base64 of the last row's timestamp text, a bar, and its id text. */
module Cursor {
  import opened Common
  import opened Base64

  const SEP: byte := 124

  datatype CursorPosition = CursorPosition(updatedAt: seq<byte>, id: seq<byte>)

  /** InvalidCursor: the text has no usable separator. InvalidValue: the database rejects a part of it. */
  datatype ListError = InvalidCursor | InvalidValue

  function EncodeCursor(updatedAt: seq<byte>, id: seq<byte>): seq<byte> {
    Encoded(updatedAt + [SEP] + id)
  }

  /** The position of the first c, or |s| if there is none. */
  function Find(s: seq<byte>, c: byte): (i: nat)
    ensures i <= |s|
    ensures i < |s| ==> s[i] == c
    ensures c !in s[..i]
  {
    if s == [] then 0
    else if s[0] == c then 0
    else
      var i := Find(s[1..], c) + 1;
      assert s[..i] == [s[0]] + s[1..][..i - 1];
      i
  }

  function ParseCursor(text: seq<byte>): Result<CursorPosition, ListError> {
    var sep := Find(text, SEP);
    if sep == |text| || sep == 0 || sep == |text| - 1 then Err(InvalidCursor)
    else Ok(CursorPosition(text[..sep], text[sep + 1..]))
  }

  method MakeCursor(updatedAt: seq<byte>, id: seq<byte>) returns (cursor: seq<byte>)
    ensures cursor == EncodeCursor(updatedAt, id)
  {
    cursor := Encode(updatedAt + [SEP] + id);
  }

  method DecodeCursor(cursor: seq<byte>) returns (r: Result<CursorPosition, ListError>)
    ensures r == ParseCursor(Decoded(cursor))
  {
    var decoded := Decode(cursor);
    r := ParseCursor(decoded);
  }

  /** A cursor is accepted exactly when its text is a non-empty part without a bar, a bar, and a
      non-empty rest; the two parts are then what is returned. */
  lemma ParseCursorMeaning(text: seq<byte>, ts: seq<byte>, id: seq<byte>)
    ensures ParseCursor(text) == Ok(CursorPosition(ts, id)) <==>
            text == ts + [SEP] + id && ts != [] && id != [] && SEP !in ts
    ensures SEP == '|' as int && (ParseCursor(text).Err? ==> ParseCursor(text).error == InvalidCursor)
  {
    var sep := Find(text, SEP);
    if ParseCursor(text) == Ok(CursorPosition(ts, id)) {
      assert text == text[..sep] + [text[sep]] + text[sep + 1..];
    }
    if text == ts + [SEP] + id && ts != [] && id != [] && SEP !in ts {
      FindFirst(ts, id);
      assert text[..|ts|] == ts && text[|ts| + 1..] == id;
    }
  }

  lemma FindFirst(ts: seq<byte>, id: seq<byte>)
    requires SEP !in ts
    ensures Find(ts + [SEP] + id, SEP) == |ts|
  {
    var text, i := ts + [SEP] + id, Find(ts + [SEP] + id, SEP);
    assert text[|ts|] == SEP;
    assert forall k | 0 <= k < |ts| :: text[k] == ts[k] != SEP;
    assert forall k | 0 <= k < i :: text[k] == text[..i][k] != SEP;
  }

  /** The round trip succeeds exactly for non-empty timestamp text without a bar and non-empty ids. */
  lemma CursorRoundTrip(ts: seq<byte>, id: seq<byte>)
    ensures ParseCursor(Decoded(EncodeCursor(ts, id))) == Ok(CursorPosition(ts, id)) <==>
            ts != [] && SEP !in ts && id != []
  {
    RoundTrip(ts + [SEP] + id);
    ParseCursorMeaning(ts + [SEP] + id, ts, id);
  }
}
