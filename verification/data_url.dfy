/** The image payload sent to the server: the file reader yields a data URL,
    and the payload is `dataUrl.split(',')[1]`, meant as the base64 text
    without its `data:<mime>;base64,` prefix. */
module DataUrl {
  import opened Wrappers
  import opened JsText

  /** `dataUrl.split(',')[1]`: the second comma-separated field, which is
      `undefined` when the string holds no comma. */
  function Payload(dataUrl: string): (p: Option<string>)
    ensures p.Some? <==> ',' in dataUrl
    ensures p.Some? ==> ',' !in p.value
  {
    var fields := Split(dataUrl, ',');
    if |fields| > 1 then
      SplitFieldsLackSeparator(dataUrl, ',');
      Some(fields[1])
    else
      None
  }

  /** The payload is the text between the first comma and the next comma, or
      the end of the string when no second comma follows. */
  lemma {:induction false} PayloadFollowsFirstComma(dataUrl: string)
    requires ',' in dataUrl
    ensures var start := IndexOf(dataUrl, ',') + 1;
            var p := Payload(dataUrl).value;
            && start + |p| <= |dataUrl|
            && dataUrl[start..start + |p|] == p
            && (start + |p| == |dataUrl| || dataUrl[start + |p|] == ',')
  {
    var start := IndexOf(dataUrl, ',') + 1;
    var rest := dataUrl[start..];
    SplitAtFirst(dataUrl, ',');
    SplitFirstField(rest, ',');
    var p := Split(rest, ',')[0];
    assert Payload(dataUrl).value == p;
    assert rest[..|p|] == dataUrl[start..start + |p|];
  }

  /** The fields of a string are its text up to the first separator followed by
      the fields of the rest. */
  lemma {:induction false} SplitAtFirst(s: string, sep: char)
    requires sep in s
    ensures var i := IndexOf(s, sep);
            Split(s, sep) == [s[..i]] + Split(s[i + 1..], sep)
  {
    var i := IndexOf(s, sep);
    assert s == s[..i] + [sep] + s[i + 1..];
    SplitAround(s[..i], s[i + 1..], sep);
  }

  lemma NotInAppend(a: string, b: string, c: char)
    requires c !in a && c !in b
    ensures c !in a + b
  {
    assert forall k :: 0 <= k < |a + b| ==> (a + b)[k] == if k < |a| then a[k] else b[k - |a|];
  }

  /** The characters of the base64 alphabet, padding included. */
  predicate IsBase64Char(c: char) {
    ('A' <= c <= 'Z') || ('a' <= c <= 'z') || ('0' <= c <= '9') || c == '+' || c == '/' || c == '='
  }

  /** The data URL `readAsDataURL` produces for a file of the given MIME type
      whose base64 encoding is `encoded`. */
  function Base64DataUrl(mime: string, encoded: string): string {
    "data:" + mime + ";base64," + encoded
  }

  /** For a data URL as the file reader produces it, the payload is exactly the
      base64 text: everything after the first comma. */
  lemma {:induction false} PayloadOfBase64DataUrl(mime: string, encoded: string)
    requires ',' !in mime
    requires forall i :: 0 <= i < |encoded| ==> IsBase64Char(encoded[i])
    ensures Payload(Base64DataUrl(mime, encoded)) == Some(encoded)
  {
    var header := "data:" + mime + ";base64";
    assert Base64DataUrl(mime, encoded) == header + [','] + encoded;
    assert ',' !in header by {
      NotInAppend("data:", mime, ',');
      NotInAppend("data:" + mime, ";base64", ',');
    }
    assert ',' !in encoded by {
      assert forall k :: 0 <= k < |encoded| ==> IsBase64Char(encoded[k]);
    }
    SplitAround(header, encoded, ',');
  }

  /** When the first comma is the only one, the payload is everything after it. */
  lemma {:induction false} PayloadAfterOnlyComma(dataUrl: string)
    requires ',' in dataUrl
    requires ',' !in dataUrl[IndexOf(dataUrl, ',') + 1..]
    ensures Payload(dataUrl) == Some(dataUrl[IndexOf(dataUrl, ',') + 1..])
  {
    SplitAtFirst(dataUrl, ',');
  }
}
