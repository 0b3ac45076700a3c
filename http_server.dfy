/**
 * The request-decoding helpers of http_server.cpp: the MIME-to-suffix map,
 * the naive `"key":"value"` extractor, the `data:` URL split of section 3
 * of RFC 2397, the multipart upload accumulation of /api/upload and the
 * decision chains of the /api/upload and /api/clipboard handlers (their
 * temporary-file writes and job submission left out).
 */
module HttpServer {
  import opened Wrappers
  import opened Text
  import opened Base64

  // ------------------------------------------------------ suffix_from_mime

  /** The comparisons of suffix_from_mime on the already lowered MIME type. */
  function MimeSuffix(m: string): (r: string)
    ensures r in {".png", ".jpg", ".webp", ".heic", ".bin"}
    ensures r == ".png" <==> m == "image/png"
    ensures r == ".jpg" <==> m == "image/jpeg" || m == "image/jpg"
    ensures r == ".webp" <==> m == "image/webp"
    ensures r == ".heic" <==> m == "image/heic" || m == "image/heif"
  {
    if m == "image/png" then ".png"
    else if m == "image/jpeg" || m == "image/jpg" then ".jpg"
    else if m == "image/webp" then ".webp"
    else if m == "image/heic" || m == "image/heif" then ".heic"
    else ".bin"
  }

  /** suffix_from_mime: lowers a copy of `mime` in place, then compares. */
  method SuffixFromMime(mime: string) returns (suffix: string)
    ensures suffix == MimeSuffix(Lower(mime))
  {
    var m := mime;
    var i := 0;
    while i < |m|
      invariant 0 <= i <= |m| == |mime|
      invariant forall k :: 0 <= k < i ==> m[k] == LowerChar(mime[k])
      invariant forall k :: i <= k < |m| ==> m[k] == mime[k]
    {
      m := m[i := LowerChar(m[i])];
      i := i + 1;
    }
    assert m == Lower(mime);
    suffix := MimeSuffix(m);
  }

  // ------------------------------------------------- json_get_string_field

  /** The quoted key `"key"` the extractor looks for. */
  function QuotedKey(key: string): string {
    "\"" + key + "\""
  }

  /**
   * json_get_string_field: after the first `"key"`, the first ':', then the
   * text between the next two '"'. Escapes are not understood.
   */
  function JsonGetStringField(body: string, key: string): (r: Option<string>)
    ensures Find(body, QuotedKey(key), 0).None? ==> r.None?
    ensures r.Some? ==> forall i :: 0 <= i < |r.value| ==> r.value[i] != '"'
    ensures r.Some? ==> exists k: nat :: OccursAt(body, "\"" + r.value + "\"", k)
  {
    var pat := QuotedKey(key);
    var p := Find(body, pat, 0);
    if p.None? then None else QuotedValue(body, p.value + |pat|)
  }

  /** The three searches after the key: the first ':' from `from`, then the text between the next two '"'. */
  function QuotedValue(body: string, from: nat): (r: Option<string>)
    ensures r.Some? ==> forall i :: 0 <= i < |r.value| ==> r.value[i] != '"'
    ensures r.Some? ==> exists k: nat :: OccursAt(body, "\"" + r.value + "\"", k)
  {
    var c := FindChar(body, ':', from);
    if c.None? then None
    else
      var q1 := FindChar(body, '"', c.value + 1);
      if q1.None? then None
      else
        var q2 := FindChar(body, '"', q1.value + 1);
        if q2.None? then None
        else
          var v := body[q1.value + 1..q2.value];
          assert body[q1.value..q2.value + 1] == [body[q1.value]] + v + [body[q2.value]];
          assert OccursAt(body, "\"" + v + "\"", q1.value);
          Some(v)
  }

  /**
   * The extractor gives None exactly when one of its four searches fails:
   * no `"key"`, no ':' after it, or no opening or closing '"' after that.
   */
  lemma JsonFieldNone(body: string, key: string)
    ensures JsonGetStringField(body, key).None? <==>
      var p := Find(body, QuotedKey(key), 0);
      p.None? ||
      (var c := FindChar(body, ':', p.value + |QuotedKey(key)|);
       c.None? ||
       (var q1 := FindChar(body, '"', c.value + 1);
        q1.None? || FindChar(body, '"', q1.value + 1).None?))
  {
  }

  /** The first occurrence of `pat` at or after `from` is the one at `k` when none comes earlier. */
  lemma FindIs(s: string, pat: string, from: nat, k: nat)
    requires from <= k && OccursAt(s, pat, k)
    requires forall j: nat :: from <= j < k ==> !OccursAt(s, pat, j)
    ensures Find(s, pat, from) == Some(k)
  {
  }

  lemma FindCharIs(s: string, c: char, from: nat, k: nat)
    requires from <= k < |s| && s[k] == c
    requires forall j :: from <= j < k ==> s[j] != c
    ensures FindChar(s, c, from) == Some(k)
  {
  }

  /**
   * The extractor's layout lemma: a body laid out as `prefix "key" gap : gap2 "v" rest`
   * gives back `v`, where `prefix` holds no earlier `"key"`, `gap` no ':', and
   * `gap2` and `v` no '"'.
   */
  lemma ReadField(prefix: string, key: string, gap: string, gap2: string, v: string, rest: string)
    requires forall j: nat :: j < |prefix| ==> !OccursAt(prefix + QuotedKey(key), QuotedKey(key), j)
    requires forall i :: 0 <= i < |gap| ==> gap[i] != ':'
    requires forall i :: 0 <= i < |gap2| ==> gap2[i] != '"'
    requires forall i :: 0 <= i < |v| ==> v[i] != '"'
    ensures JsonGetStringField(prefix + QuotedKey(key) + (gap + (":" + (gap2 + ("\"" + (v + ("\"" + rest)))))), key)
      == Some(v)
  {
    var pat := QuotedKey(key);
    var tail := gap + (":" + (gap2 + ("\"" + (v + ("\"" + rest)))));
    var body := prefix + pat + tail;
    FirstOccurrence(prefix, pat, tail);
    var t := |prefix| + |pat|;
    AfterPrefix(prefix + pat, tail);
    var c := t + |gap|;
    var q1 := c + 1 + |gap2|;
    var q2 := q1 + 1 + |v|;
    ReadTail(body, t, gap, gap2, v, rest, c, q1, q2);
    FieldAt(body, key, |prefix|, t, c, q1, q2);
  }

  lemma AfterPrefix(a: string, b: string)
    ensures (a + b)[|a|..] == b
  {
  }

  /** `pat` first occurs in `prefix pat tail` right after `prefix` when `prefix pat` has no earlier one. */
  lemma FirstOccurrence(prefix: string, pat: string, tail: string)
    requires forall j: nat :: j < |prefix| ==> !OccursAt(prefix + pat, pat, j)
    ensures Find(prefix + pat + tail, pat, 0) == Some(|prefix|)
  {
    var body := prefix + pat + tail;
    var p := |prefix|;
    assert body[..p + |pat|] == prefix + pat;
    forall j: nat | j < p
      ensures !OccursAt(body, pat, j)
    {
      assert !OccursAt(prefix + pat, pat, j);
      assert j + |pat| <= |prefix + pat|;
      assert body[j..j + |pat|] == (prefix + pat)[j..j + |pat|];
    }
    assert body[p..p + |pat|] == pat;
    FindIs(body, pat, 0, p);
  }

  /** The field value found in what follows the quoted key. */
  lemma ReadTail(body: string, t: nat, gap: string, gap2: string, v: string, rest: string, c: nat, q1: nat, q2: nat)
    requires t <= |body| && body[t..] == gap + (":" + (gap2 + ("\"" + (v + ("\"" + rest)))))
    requires forall i :: 0 <= i < |gap| ==> gap[i] != ':'
    requires forall i :: 0 <= i < |gap2| ==> gap2[i] != '"'
    requires forall i :: 0 <= i < |v| ==> v[i] != '"'
    requires c == t + |gap| && q1 == c + 1 + |gap2| && q2 == q1 + 1 + |v|
    ensures FindChar(body, ':', t) == Some(c) && FindChar(body, '"', c + 1) == Some(q1)
    ensures FindChar(body, '"', q1 + 1) == Some(q2) && body[q1 + 1..q2] == v
  {
    var more := gap2 + ("\"" + (v + ("\"" + rest)));
    SkipTo(body, t, gap, ':', more, c);
    ReadQuotes(body, c + 1, gap2, v, rest, q1, q2);
  }

  /** The two quotes after the ':' enclose `v`. */
  lemma ReadQuotes(body: string, s: nat, gap2: string, v: string, rest: string, q1: nat, q2: nat)
    requires s <= |body| && body[s..] == gap2 + ("\"" + (v + ("\"" + rest)))
    requires forall i :: 0 <= i < |gap2| ==> gap2[i] != '"'
    requires forall i :: 0 <= i < |v| ==> v[i] != '"'
    requires q1 == s + |gap2| && q2 == q1 + 1 + |v|
    ensures FindChar(body, '"', s) == Some(q1)
    ensures FindChar(body, '"', q1 + 1) == Some(q2) && body[q1 + 1..q2] == v
  {
    SkipTo(body, s, gap2, '"', v + ("\"" + rest), q1);
    SkipTo(body, q1 + 1, v, '"', rest, q2);
  }

  /** The extractor's result from the positions of its four searches. */
  lemma FieldAt(body: string, key: string, p: nat, t: nat, c: nat, q1: nat, q2: nat)
    requires Find(body, QuotedKey(key), 0) == Some(p) && t == p + |QuotedKey(key)|
    requires FindChar(body, ':', t) == Some(c)
    requires FindChar(body, '"', c + 1) == Some(q1)
    requires FindChar(body, '"', q1 + 1) == Some(q2)
    ensures JsonGetStringField(body, key) == Some(body[q1 + 1..q2])
  {
    ValueAt(body, t, c, q1, q2);
    KeyAt(body, key, p, t);
  }

  lemma KeyAt(body: string, key: string, p: nat, t: nat)
    requires Find(body, QuotedKey(key), 0) == Some(p) && t == p + |QuotedKey(key)|
    ensures JsonGetStringField(body, key) == QuotedValue(body, t)
  {
  }

  lemma ValueAt(body: string, from: nat, c: nat, q1: nat, q2: nat)
    requires FindChar(body, ':', from) == Some(c)
    requires FindChar(body, '"', c + 1) == Some(q1)
    requires FindChar(body, '"', q1 + 1) == Some(q2)
    ensures QuotedValue(body, from) == Some(body[q1 + 1..q2])
  {
    var r := QuotedValue(body, from);
    assert r == Some(body[q1 + 1..q2]);
  }

  /** In `seg c more` with no `c` in `seg`, the first `c` ends `seg`. */
  lemma SkipTo(s: string, from: nat, seg: string, c: char, more: string, at: nat)
    requires from <= |s| && s[from..] == seg + ([c] + more)
    requires forall i :: 0 <= i < |seg| ==> seg[i] != c
    requires at == from + |seg|
    ensures FindChar(s, c, from) == Some(at)
    ensures s[from..at] == seg && s[at + 1..] == more
  {
    var u := s[from..];
    assert forall i :: from <= i < |s| ==> s[i] == u[i - from];
    assert u[|seg|] == c;
    FindCharIs(s, c, from, from + |seg|);
    assert s[from..from + |seg|] == u[..|seg|];
    assert s[from + |seg| + 1..] == u[|seg| + 1..];
  }

  // -------------------------------------------------------- parse_data_url

  const DefaultMime: string := "application/octet-stream"

  /**
   * parse_data_url: splits at the first "base64,"; the MIME type is the text
   * between "data:" and the first ';' of the part before it, when there is
   * one, and application/octet-stream otherwise.
   */
  function ParseDataUrl(u: string): (r: Option<(string, string)>)
    ensures r.None? <==> forall k: nat :: !OccursAt(u, "base64,", k)
    ensures r.Some? ==> |r.value.1| + 7 <= |u| && EndsWith(u, r.value.1)
    ensures r.Some? ==> var p := |u| - |r.value.1| - 7;
      OccursAt(u, "base64,", p) && forall k: nat :: k < p ==> !OccursAt(u, "base64,", k)
    ensures r.Some? && r.value.0 != DefaultMime ==>
      var p := |u| - |r.value.1| - 7;
      StartsWith(u, "data:") && 5 + |r.value.0| < p && u[5 + |r.value.0|] == ';'
      && u[5..5 + |r.value.0|] == r.value.0 && forall i :: 0 <= i < |r.value.0| ==> r.value.0[i] != ';'
    ensures r.Some? && !StartsWith(u, "data:") ==> r.value.0 == DefaultMime
  {
    var p := Find(u, "base64,", 0);
    if p.None? then None
    else
      var meta := u[..p.value];
      var payload := u[p.value + 7..];
      assert u[|u| - |payload|..] == payload;
      var semi := FindChar(meta, ';', 0);
      if StartsWith(meta, "data:") && semi.Some? then
        assert meta[..5] == "data:";
        assert semi.value >= 5;
        var mime := meta[5..semi.value];
        assert u[..5] == meta[..5];
        assert u[5..5 + |mime|] == mime;
        Some((mime, payload))
      else
        assert StartsWith(u, "data:") && p.value >= 5 ==> StartsWith(meta, "data:") by {
          if StartsWith(u, "data:") && p.value >= 5 {
            assert meta[..5] == u[..5];
          }
        }
        Some((DefaultMime, payload))
  }

  /** A "data:" prefix with a ';' before the first "base64," gives the text between the two. */
  lemma DataUrlMime(u: string, p: nat, semi: nat)
    requires Find(u, "base64,", 0) == Some(p)
    requires StartsWith(u[..p], "data:") && FindChar(u[..p], ';', 0) == Some(semi)
    ensures 5 <= semi < p && ParseDataUrl(u) == Some((u[5..semi], u[p + 7..]))
  {
    var meta := u[..p];
    assert meta[..5] == "data:";
    assert semi >= 5;
    assert meta[5..semi] == u[5..semi];
  }

  /** Without a "data:" prefix or without a ';' before the first "base64,", the MIME type is the default. */
  lemma DataUrlDefault(u: string, p: nat)
    requires Find(u, "base64,", 0) == Some(p)
    requires !StartsWith(u[..p], "data:") || FindChar(u[..p], ';', 0).None?
    ensures ParseDataUrl(u) == Some((DefaultMime, u[p + 7..]))
  {
  }

  /** The layout lemma of ParseDataUrl: the URL `data:<mime>;base64,<payload>` splits back. */
  lemma ReadDataUrl(mime: string, payload: string)
    requires forall i :: 0 <= i < |mime| ==> mime[i] != ';' && mime[i] != ','
    ensures ParseDataUrl("data:" + mime + ";base64," + payload) == Some((mime, payload))
  {
    var u := "data:" + mime + ";base64," + payload;
    var p := 6 + |mime|;
    assert u == ("data:" + mime + ";") + ("base64," + payload);
    assert u[p..p + 7] == "base64,";
    forall k: nat | k < p
      ensures !OccursAt(u, "base64,", k)
    {
      NoEarlierBase64(mime, payload, k);
    }
    FindIs(u, "base64,", 0, p);
    var meta := u[..p];
    assert meta == "data:" + mime + ";";
    assert meta[..5] == "data:";
    assert meta[5 + |mime|] == ';';
    assert forall j :: 5 <= j < 5 + |mime| ==> meta[j] == mime[j - 5];
    FindCharIs(meta, ';', 0, 5 + |mime|);
    DataUrlMime(u, p, 5 + |mime|);
    assert u[5..5 + |mime|] == mime;
    assert u[p + 7..] == payload;
  }

  /** Before the ';' of `data:<mime>;base64,` there is no ',' to end a "base64,". */
  lemma NoEarlierBase64(mime: string, payload: string, k: nat)
    requires forall i :: 0 <= i < |mime| ==> mime[i] != ';' && mime[i] != ','
    requires k < 6 + |mime|
    ensures !OccursAt("data:" + mime + ";base64," + payload, "base64,", k)
  {
    var head := "data:" + mime + ";";
    var u := "data:" + mime + ";base64," + payload;
    assert u == head + ("base64," + payload);
    if k + 7 <= |u| {
      assert u[k..k + 7][6] == u[k + 6];
      if k + 6 < |head| {
        assert u[k + 6] == head[k + 6];
        if k + 6 < 5 + |mime| {
          assert head[k + 6] == mime[k + 1];
        } else {
          assert head[k + 6] == ';';
        }
      } else {
        assert u[k + 6] == "base64,"[k + 6 - |head|];
      }
    }
  }

  // ---------------------------------- upload (http_server.cpp:309-325)

  /** What the content reader reports: a part header, or a chunk of its data. */
  datatype Part = Header(name: string, filename: string, contentType: string) | Data(chunk: string)

  /** The callback's captured variables got_file, filename, content_type, file_bytes. */
  datatype Upload = Upload(gotFile: bool, filename: string, contentType: string, bytes: string)

  predicate IsFileHeader(e: Part) {
    e.Header? && e.name == "file"
  }

  /** The index of the last header of a part named "file". */
  function LastFileHeader(es: seq<Part>): (r: Option<nat>)
    ensures r.Some? ==> r.value < |es| && IsFileHeader(es[r.value])
    ensures r.Some? ==> forall k :: r.value < k < |es| ==> !IsFileHeader(es[k])
    ensures r.None? ==> forall k :: 0 <= k < |es| ==> !IsFileHeader(es[k])
  {
    if es == [] then None
    else if IsFileHeader(es[|es| - 1]) then Some(|es| - 1)
    else LastFileHeader(es[..|es| - 1])
  }

  /** The data chunks of `es`, concatenated in order, whatever part they belong to. */
  function Chunks(es: seq<Part>): string {
    if es == [] then []
    else Chunks(es[..|es| - 1]) + (if es[|es| - 1].Data? then es[|es| - 1].chunk else [])
  }

  /**
   * What the callbacks hold after the events `es`: the last "file" header's
   * name and type, and every chunk that came after it.
   */
  function Collected(es: seq<Part>): (u: Upload)
    ensures u.gotFile <==> exists k :: 0 <= k < |es| && IsFileHeader(es[k])
  {
    var last := LastFileHeader(es);
    if last.None? then Upload(false, [], [], [])
    else Upload(true, es[last.value].filename, es[last.value].contentType, Chunks(es[last.value + 1..]))
  }

  lemma CollectedSnoc(es: seq<Part>, e: Part)
    ensures IsFileHeader(e) ==> Collected(es + [e]) == Upload(true, e.filename, e.contentType, [])
    ensures e.Header? && !IsFileHeader(e) ==> Collected(es + [e]) == Collected(es)
    ensures e.Data? && Collected(es).gotFile ==>
      Collected(es + [e]) == Collected(es).(bytes := Collected(es).bytes + e.chunk)
    ensures e.Data? && !Collected(es).gotFile ==> Collected(es + [e]) == Collected(es)
  {
    var w := es + [e];
    assert w[..|w| - 1] == es;
    if !IsFileHeader(e) {
      var last := LastFileHeader(es);
      if last.Some? {
        var l := last.value;
        assert w[l + 1..][..|w[l + 1..]| - 1] == es[l + 1..];
      }
    } else {
      assert w[|w|..] == [];
    }
  }

  /** The two callbacks run over the events the content reader delivers. */
  method ReadUpload(events: seq<Part>) returns (u: Upload)
    ensures u == Collected(events)
  {
    var gotFile := false;
    var filename: string := [];
    var contentType: string := [];
    var fileBytes: string := [];
    var i := 0;
    while i < |events|
      invariant 0 <= i <= |events|
      invariant Upload(gotFile, filename, contentType, fileBytes) == Collected(events[..i])
    {
      CollectedSnoc(events[..i], events[i]);
      assert events[..i + 1] == events[..i] + [events[i]];
      match events[i] {
        case Header(name, fn, ct) =>
          if name == "file" {
            gotFile := true;
            filename := fn;
            contentType := ct;
            fileBytes := [];
          }
        case Data(chunk) =>
          if gotFile {
            fileBytes := fileBytes + chunk;
          }
      }
      i := i + 1;
    }
    assert events[..i] == events;
    u := Upload(gotFile, filename, contentType, fileBytes);
  }

  /** The accumulated bytes are exactly the chunks after the last "file" header. */
  lemma CollectedBytes(es: seq<Part>, k: nat)
    requires k < |es| && IsFileHeader(es[k])
    requires forall j :: k < j < |es| ==> !IsFileHeader(es[j])
    ensures Collected(es) == Upload(true, es[k].filename, es[k].contentType, Chunks(es[k + 1..]))
  {
  }

  // ---------------------------------- suffix (http_server.cpp:331-334)

  /**
   * The saved file's suffix: the filename from its last '.', else the
   * suffix of the part's content type when it has one, else ".bin".
   */
  function ChooseSuffix(filename: string, contentType: string): (r: string)
    ensures |r| >= 1 && r[0] == '.'
    ensures (exists k :: 0 <= k < |filename| && filename[k] == '.') ==>
      EndsWith(filename, r) && forall k :: 1 <= k < |r| ==> r[k] != '.'
    ensures (forall k :: 0 <= k < |filename| ==> filename[k] != '.') && contentType != [] ==>
      r == MimeSuffix(Lower(contentType))
    ensures (forall k :: 0 <= k < |filename| ==> filename[k] != '.') && contentType == [] ==> r == ".bin"
  {
    var dot := FindLast(filename, '.');
    if filename != [] && dot.Some? then
      var r := filename[dot.value..];
      assert filename[|filename| - |r|..] == r;
      r
    else if contentType != [] then MimeSuffix(Lower(contentType))
    else ".bin"
  }

  // ------------------------------------------------------------ handlers

  /** What /api/upload answers, short of writing the file and submitting it. */
  datatype UploadOutcome = MissingFile | SaveUpload(bytes: string, suffix: string)

  /**
   * The upload handler's decision: 400 "missing file" when the reader
   * failed, no "file" part came, or its bytes are empty.
   */
  method HandleUpload(readerOk: bool, events: seq<Part>) returns (r: UploadOutcome)
    ensures r.MissingFile? <==>
      !readerOk || (forall k :: 0 <= k < |events| ==> !IsFileHeader(events[k])) || Collected(events).bytes == []
    ensures r.SaveUpload? ==>
      r.bytes == Collected(events).bytes
      && r.suffix == ChooseSuffix(Collected(events).filename, Collected(events).contentType)
  {
    var u := ReadUpload(events);
    if !readerOk || !u.gotFile || u.bytes == [] {
      return MissingFile;
    }
    var suffix: string := ".bin";
    var dot := FindLast(u.filename, '.');
    if u.filename != [] && dot.Some? {
      suffix := u.filename[dot.value..];
    } else if u.contentType != [] {
      suffix := SuffixFromMime(u.contentType);
    }
    r := SaveUpload(u.bytes, suffix);
  }

  /** What /api/clipboard answers, short of writing the file and submitting it. */
  datatype ClipboardOutcome =
    | EmptyBody
    | MissingDataUrl
    | InvalidDataUrl
    | DecodeFailed
    | SaveClipboard(bytes: seq<byte>, suffix: string)

  /**
   * The clipboard handler's decision chain. The "base64 decode failed"
   * answer is never given, because base64_decode always succeeds.
   */
  method HandleClipboard(body: string) returns (r: ClipboardOutcome)
    ensures r != DecodeFailed
    ensures r == EmptyBody <==> body == []
    ensures r == MissingDataUrl <==> body != [] && JsonGetStringField(body, "data_url").None?
    ensures r == InvalidDataUrl <==>
      body != [] && JsonGetStringField(body, "data_url").Some?
      && ParseDataUrl(JsonGetStringField(body, "data_url").value).None?
    ensures r.SaveClipboard? ==>
      var parsed := ParseDataUrl(JsonGetStringField(body, "data_url").value).value;
      r.bytes == DecodeSextets(Sextets(parsed.1)) && r.suffix == MimeSuffix(Lower(parsed.0))
  {
    if body == [] {
      return EmptyBody;
    }
    var dataUrl := JsonGetStringField(body, "data_url");
    if dataUrl.None? {
      return MissingDataUrl;
    }
    var parsed := ParseDataUrl(dataUrl.value);
    if parsed.None? {
      return InvalidDataUrl;
    }
    var bin := Base64Decode(parsed.value.1);
    if bin.None? {
      return DecodeFailed;
    }
    var suffix := SuffixFromMime(parsed.value.0);
    r := SaveClipboard(bin.value, suffix);
  }
}
