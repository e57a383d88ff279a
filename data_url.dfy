/**
 * `dataURLtoBlob`: turns a camera snapshot, a `data:` URL in the form of
 * section 3 of RFC 2397 (`data:<mime>;base64,<payload>`), into the bytes and
 * MIME type that are uploaded.  The header is the text before the first comma,
 * the payload the text between the first comma and the next one (JavaScript's
 * `split(",")` destructured into two names), the MIME type is group 1 of the
 * regular expression `/:(.*?);/` on the header, and the payload goes through
 * `atob`.
 */
module DataUrl {
  import opened Wrappers
  import Base64

  newtype uint8 = x: int | 0 <= x < 256

  /** An upload: the bytes and their MIME type. */
  datatype Blob = Blob(bytes: seq<uint8>, mime: string)

  /**
   * What makes `dataURLtoBlob` throw: the regular expression finds no match,
   * so indexing the null result fails, or `atob` rejects the payload.
   */
  datatype CodecError = MimeNotFound | InvalidBase64

  /** The end of the comma-separated piece that starts at `from`. */
  function PieceEnd(s: string, from: nat): (k: nat)
    requires from <= |s|
    ensures from <= k <= |s|
    ensures k < |s| ==> s[k] == ','
    ensures forall m :: from <= m < k ==> s[m] != ','
    decreases |s| - from
  {
    if from == |s| || s[from] == ',' then from else PieceEnd(s, from + 1)
  }

  /**
   * The first element of `s.split(",")`: the comma-free prefix of `s` that
   * ends at its first comma, or all of `s` when it holds none.
   */
  function Header(s: string): (h: string)
    ensures ',' !in h
    ensures |h| <= |s| && h == s[..|h|]
    ensures |h| < |s| <==> ',' in s
    ensures |h| < |s| ==> s[|h|] == ','
  {
    s[..PieceEnd(s, 0)]
  }

  /** The second element of `s.split(",")`, absent when `s` holds no comma. */
  function Payload(s: string): Option<string> {
    var e := PieceEnd(s, 0);
    if e == |s| then None else Some(s[e + 1..PieceEnd(s, e + 1)])
  }

  /**
   * The string `atob` is applied to: an absent second piece is JavaScript's
   * `undefined`, which `atob` converts to the text "undefined".
   */
  function PayloadText(s: string): (t: string)
    ensures ',' !in s ==> t == "undefined"
    ensures ',' in s ==>
              var after := |Header(s)| + 1 + |t|;
              && ',' !in t
              && after <= |s| && s[..after] == Header(s) + "," + t
              && (after < |s| ==> s[after] == ',')
  {
    match Payload(s)
    case Some(p) => p
    case None => "undefined"
  }

  /** LF, CR, LINE SEPARATOR and PARAGRAPH SEPARATOR: what `.` never matches. */
  predicate IsLineTerminator(c: char) {
    var n := c as int;
    n == 10 || n == 13 || n == 0x2028 || n == 0x2029
  }

  /** Every char of `h[k..j]` can be consumed by `.*?` before reaching a `;`. */
  ghost predicate Clear(h: string, k: int, j: int)
    requires 0 <= k && j <= |h|
  {
    forall m :: k <= m < j ==> h[m] != ';' && !IsLineTerminator(h[m])
  }

  /** `/:(.*?);/` matches with its `:` at `i` and its `;` at `j`. */
  ghost predicate MatchAt(h: string, i: int, j: int) {
    0 <= i < j < |h| && h[i] == ':' && h[j] == ';' && Clear(h, i + 1, j)
  }

  /** The lazy `.*?;` tried from position `k`: the first `;` reached, if any. */
  function SemicolonFrom(h: string, k: nat): (r: Option<nat>)
    requires k <= |h|
    ensures r.Some? ==> k <= r.value < |h| && h[r.value] == ';' && Clear(h, k, r.value)
    ensures r.None? ==> forall j :: k <= j < |h| && h[j] == ';' ==> !Clear(h, k, j)
    decreases |h| - k
  {
    if k == |h| || IsLineTerminator(h[k]) then None
    else if h[k] == ';' then Some(k)
    else SemicolonFrom(h, k + 1)
  }

  /** The leftmost match of `/:(.*?);/` starting at or after `i`. */
  function MatchFrom(h: string, i: nat): (r: Option<(nat, nat)>)
    requires i <= |h|
    ensures r.Some? ==> i <= r.value.0 && MatchAt(h, r.value.0, r.value.1)
    ensures r.Some? ==> forall a, b :: i <= a < r.value.0 ==> !MatchAt(h, a, b)
    ensures r.None? ==> forall a, b :: i <= a ==> !MatchAt(h, a, b)
    decreases |h| - i
  {
    if i == |h| then None
    else if h[i] == ':' && SemicolonFrom(h, i + 1).Some? then Some((i, SemicolonFrom(h, i + 1).value))
    else MatchFrom(h, i + 1)
  }

  /**
   * `header.match(/:(.*?);/)[1]`: the text between the `:` and the `;` of
   * the leftmost match, or nothing when there is no match.
   */
  function MatchMime(h: string): (r: Option<string>)
    ensures r.None? <==> forall i, j :: !MatchAt(h, i, j)
    ensures r.Some? ==> exists i, j :: MatchAt(h, i, j) && r.value == h[i + 1..j]
                                      && forall a, b :: MatchAt(h, a, b) ==> i <= a
  {
    match MatchFrom(h, 0)
    case Some((i, j)) => Some(h[i + 1..j])
    case None => None
  }

  /** `binary.charCodeAt(i)` stored into a `Uint8Array`, for every i. */
  function CharCodes(binary: string): (r: seq<uint8>)
    requires Base64.IsBinary(binary)
  {
    seq(|binary|, i requires 0 <= i < |binary| => binary[i] as int as uint8)
  }

  /**
   * What `dataURLtoBlob` returns or throws.  The MIME type is extracted
   * before `atob` runs, so a header without a match reports that even when
   * the payload is also malformed.
   */
  function DecodeDataUrl(s: string): (r: Result<Blob, CodecError>)
    ensures r == Err(MimeNotFound) <==> MatchMime(Header(s)).None?
    ensures r == Err(InvalidBase64) <==> MatchMime(Header(s)).Some? && Base64.Atob(PayloadText(s)).None?
    ensures r.Ok? ==> MatchMime(Header(s)) == Some(r.value.mime)
    ensures r.Ok? ==> exists binary :: Base64.Atob(PayloadText(s)) == Some(binary)
                                      && |r.value.bytes| == |binary|
                                      && forall i :: 0 <= i < |binary| ==> r.value.bytes[i] as int == binary[i] as int
  {
    match MatchMime(Header(s))
    case None => Err(MimeNotFound)
    case Some(mime) =>
      match Base64.Atob(PayloadText(s))
      case None => Err(InvalidBase64)
      case Some(binary) => Ok(Blob(CharCodes(binary), mime))
  }

  /** `dataURLtoBlob` as written, with the throws as errors. */
  method DataUrlToBlob(dataUrl: string) returns (r: Result<Blob, CodecError>)
    ensures r == DecodeDataUrl(dataUrl)
  {
    var header := Header(dataUrl);
    var mime := MatchMime(header);
    if mime.None? {
      return Err(MimeNotFound);
    }
    var decoded := Base64.Atob(PayloadText(dataUrl));
    if decoded.None? {
      return Err(InvalidBase64);
    }
    var bytes := CopyCharCodes(decoded.value);
    assert bytes == CharCodes(decoded.value);
    return Ok(Blob(bytes, mime.value));
  }

  /**
   * The copy loop of `dataURLtoBlob`: a `Uint8Array` of the decoded length,
   * filled from the last index down by `while (length--)`.
   */
  method CopyCharCodes(binary: string) returns (r: seq<uint8>)
    requires Base64.IsBinary(binary)
    ensures |r| == |binary|
    ensures forall i :: 0 <= i < |binary| ==> r[i] as int == binary[i] as int
  {
    var length := |binary|;
    var bytes := new uint8[length];
    while length != 0
      invariant 0 <= length <= bytes.Length == |binary|
      invariant forall i :: length <= i < bytes.Length ==> bytes[i] as int == binary[i] as int
      decreases length
    {
      length := length - 1;
      bytes[length] := binary[length] as int as uint8;
    }
    r := bytes[..];
  }

  /** A data URL without a comma never decodes: `atob("undefined")` throws. */
  lemma NoCommaFails(s: string)
    requires forall i :: 0 <= i < |s| ==> s[i] != ','
    ensures DecodeDataUrl(s).Err?
  {
    assert PieceEnd(s, 0) == |s|;
    var u := PayloadText(s);
    assert u == "undefined";
    assert forall i :: 0 <= i < |u| ==> u[i] as int >= 100;
    Base64.AtobRejectsLength(u);
  }

  /**
   * On a header without line terminators the match is the shortest text
   * between the first `:` and the first `;` after it.
   */
  lemma {:induction false} MimeOfPlainHeader(h: string, i: nat, j: nat)
    requires forall m :: 0 <= m < |h| ==> !IsLineTerminator(h[m])
    requires i < j < |h| && h[i] == ':' && h[j] == ';'
    requires forall m :: 0 <= m < i ==> h[m] != ':'
    requires forall m :: i < m < j ==> h[m] != ';'
    ensures MatchMime(h) == Some(h[i + 1..j])
  {
    assert MatchAt(h, i, j);
    var r := MatchFrom(h, 0);
    var a, b := r.value.0, r.value.1;
    assert a == i;
  }

  /** Header text a well-formed snapshot URL carries around its MIME type. */
  predicate IsPlainMime(mime: string) {
    forall m :: 0 <= m < |mime| ==> mime[m] != ';' && mime[m] != ',' && mime[m] != ':' && !IsLineTerminator(mime[m])
  }

  /** Joining two comma-free texts with a comma splits back into the two. */
  lemma SplitJoined(h: string, p: string)
    requires forall m :: 0 <= m < |h| ==> h[m] != ','
    requires forall m :: 0 <= m < |p| ==> p[m] != ','
    ensures Header(h + "," + p) == h && PayloadText(h + "," + p) == p
  {
    var s := h + "," + p;
    PieceEndAt(s, 0, |h|);
    PieceEndAt(s, |h| + 1, |s|);
    assert s[..|h|] == h;
    assert s[|h| + 1..] == p;
  }

  /** The header of a snapshot URL yields its MIME type. */
  lemma MimeOfSnapshotHeader(mime: string)
    requires IsPlainMime(mime)
    ensures MatchMime("data:" + mime + ";base64") == Some(mime)
  {
    var h := "data:" + mime + ";base64";
    assert h[4] == ':' && h[5 + |mime|] == ';';
    assert forall m :: 0 <= m < 4 ==> h[m] != ':';
    assert forall m :: 0 <= m < |h| ==> !IsLineTerminator(h[m]) by {
      forall m | 0 <= m < |h| ensures !IsLineTerminator(h[m]) {
        if 5 <= m < 5 + |mime| {
          assert h[m] == mime[m - 5];
        }
      }
    }
    assert forall m :: 4 < m < 5 + |mime| ==> h[m] == mime[m - 5];
    MimeOfPlainHeader(h, 4, 5 + |mime|);
    assert h[5..5 + |mime|] == mime;
  }

  /**
   * Decoding a base64 data URL built from a MIME type and a binary string
   * gives back that MIME type and exactly those bytes.
   */
  lemma DecodeEncodedDataUrl(mime: string, binary: string)
    requires IsPlainMime(mime) && Base64.IsBinary(binary)
    ensures DecodeDataUrl("data:" + mime + ";base64," + Base64.Btoa(binary)) == Ok(Blob(CharCodes(binary), mime))
  {
    var h := "data:" + mime + ";base64";
    var p := Base64.Btoa(binary);
    assert "data:" + mime + ";base64," + p == h + "," + p;
    assert forall m :: 0 <= m < |h| ==> h[m] != ',' by {
      forall m | 0 <= m < |h| ensures h[m] != ',' {
        if 5 <= m < 5 + |mime| {
          assert h[m] == mime[m - 5];
        }
      }
    }
    SplitJoined(h, p);
    MimeOfSnapshotHeader(mime);
    Base64.AtobBtoa(binary);
  }

  lemma PieceEndAt(s: string, from: nat, k: nat)
    requires from <= k <= |s|
    requires k < |s| ==> s[k] == ','
    requires forall m :: from <= m < k ==> s[m] != ','
    ensures PieceEnd(s, from) == k
  {
    var e := PieceEnd(s, from);
  }
}
