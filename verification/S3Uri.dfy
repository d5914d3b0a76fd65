/**
  S3 URIs and paths: `parse_s3_uri`, path joining, the URI rebuilt by the reader constructor, and
  percent-encoding of keys.
 */
module S3Uri {
  import opened Results
  import opened ByteStreams

  const SCHEME := "s3://"

  /** Length of the part in front of the first '/', the whole length if there is none. */
  function BeforeSlash(s: string): (n: nat)
    ensures n <= |s| && '/' !in s[..n] && (n < |s| ==> s[n] == '/')
  {
    if s == [] || s[0] == '/' then 0
    else
      var n := BeforeSlash(s[1..]);
      assert s[..1 + n] == [s[0]] + s[1..][..n];
      1 + n
  }

  function ParseS3Uri(uri: string): Result<(string, string)> {
    if !(SCHEME <= uri) then Err(ValueError)
    else
      var rest := uri[|SCHEME|..];
      if rest == "" then Err(ValueError)
      else
        var n := BeforeSlash(rest);
        if n == 0 then Err(ValueError)
        else Ok((rest[..n], if n < |rest| then rest[n + 1..] else ""))
  }

  /** Accepted exactly: "s3://" and then something that is not a slash. */
  lemma ParseAccepts(uri: string)
    ensures ParseS3Uri(uri).Ok? <==> |uri| >= 6 && uri[..5] == ['s', '3', ':', '/', '/'] && uri[5] != '/'
  {
    assert SCHEME == ['s', '3', ':', '/', '/'];
    if SCHEME <= uri {
      assert uri[..5] == SCHEME;
      var rest := uri[5..];
      if rest != "" { assert rest[0] == uri[5]; }
    }
  }

  /** `f"s3://{bucket}/{key}"`. */
  function Rebuild(bucket: string, key: string): string {
    SCHEME + bucket + "/" + key
  }

  lemma {:induction false} BeforeSlashOf(bucket: string, rest: string)
    requires '/' !in bucket
    ensures BeforeSlash(bucket + "/" + rest) == |bucket|
  {
    var s := bucket + "/" + rest;
    if bucket != "" {
      assert s[0] == bucket[0] && bucket[0] in bucket;
      assert s[1..] == bucket[1..] + "/" + rest;
      BeforeSlashOf(bucket[1..], rest);
    }
  }

  /** Exactly the non-empty bucket names without '/' survive being put into a URI and parsed back. */
  lemma ParseOfRebuild(bucket: string, key: string)
    ensures ParseS3Uri(Rebuild(bucket, key)) == Ok((bucket, key)) <==> bucket != "" && '/' !in bucket
  {
    var uri := Rebuild(bucket, key);
    var rest := bucket + "/" + key;
    assert uri == SCHEME + rest;
    assert uri[|SCHEME|..] == rest;
    if '/' !in bucket {
      BeforeSlashOf(bucket, key);
      assert rest[..|bucket|] == bucket && rest[|bucket| + 1..] == key;
    }
  }

  /** Parsing and rebuilding gives a URI back exactly when something separates the bucket from the key. */
  lemma RebuildOfParse(uri: string)
    requires ParseS3Uri(uri).Ok?
    ensures var (bucket, key) := ParseS3Uri(uri).value;
            Rebuild(bucket, key) == uri <==> '/' in uri[|SCHEME|..]
  {
    hide BeforeSlash, Rebuild;
    var rest := uri[|SCHEME|..];
    var n := BeforeSlash(rest);
    assert uri == SCHEME + rest;
    if n < |rest| {
      RebuildAt(rest, n);
    } else {
      assert rest[..n] == rest;
      RebuildAddsSlash(rest);
    }
  }

  /** The shortest kind of URI that comes back changed. */
  lemma BareBucketGainsSlash()
    ensures ParseS3Uri("s3://b") == Ok(("b", "")) && Rebuild("b", "") == "s3://b/"
  {
    assert "s3://b"[|SCHEME|..] == "b" && "b"[1..] == "" && "b"[..1] == "b";
  }

  lemma RebuildAt(rest: string, n: nat)
    requires n < |rest| && rest[n] == '/'
    ensures Rebuild(rest[..n], rest[n + 1..]) == SCHEME + rest
  {
    assert rest == rest[..n] + "/" + rest[n + 1..];
    assert Rebuild(rest[..n], rest[n + 1..]) == SCHEME + (rest[..n] + "/" + rest[n + 1..]);
  }

  lemma RebuildAddsSlash(rest: string)
    ensures Rebuild(rest, "") != SCHEME + rest
  {
    assert |Rebuild(rest, "")| == |SCHEME + rest| + 1;
  }

  /** `os.path.join(base, suffix)`. */
  function JoinPath(base: string, suffix: string): string {
    if "/" <= suffix then suffix
    else if base == "" || base[|base| - 1] == '/' then base + suffix
    else base + "/" + suffix
  }

  /** Joining a name to a directory of a bucket: one slash in between, and none too many. */
  lemma JoinedKey(bucket: string, directory: string, name: string)
    requires bucket != "" && '/' !in bucket && (name == "" || name[0] != '/')
    ensures JoinPath("s3://" + bucket, name) == "s3://" + bucket + "/" + name
    ensures JoinPath("s3://" + bucket + "/" + directory, name) ==
            if directory == "" || directory[|directory| - 1] == '/' then "s3://" + bucket + "/" + directory + name
            else "s3://" + bucket + "/" + directory + "/" + name
  {
    assert !("/" <= name) by { if name != "" { assert "/"[0] != name[0]; } }
    var root, base := "s3://" + bucket, "s3://" + bucket + "/" + directory;
    assert root[|root| - 1] == bucket[|bucket| - 1] && bucket[|bucket| - 1] in bucket;
    if directory == "" {
      assert base[|base| - 1] == '/';
    } else {
      assert base[|base| - 1] == directory[|directory| - 1];
    }
  }

  /** What a parsable URI looks like. */
  lemma ParsedShape(uri: string)
    requires ParseS3Uri(uri).Ok?
    ensures var (bucket, key) := ParseS3Uri(uri).value;
            && bucket != "" && '/' !in bucket
            && uri == (if '/' in uri[|SCHEME|..] then Rebuild(bucket, key) else SCHEME + bucket)
  {
    RebuildOfParse(uri);
    var rest := uri[|SCHEME|..];
    assert uri == SCHEME + rest;
    if '/' !in rest {
      assert rest[..|rest|] == rest;
    }
  }

  lemma JoinedPath(base: string, suffix: string, bucket: string, key: string)
    requires bucket != "" && '/' !in bucket && !("/" <= suffix)
    requires base == Rebuild(bucket, key) || base == SCHEME + bucket
    ensures exists key' :: JoinPath(base, suffix) == Rebuild(bucket, key')
  {
    if base == Rebuild(bucket, key) {
      if base[|base| - 1] == '/' {
        assert base + suffix == Rebuild(bucket, key + suffix);
      } else {
        assert base + "/" + suffix == Rebuild(bucket, key + "/" + suffix);
      }
    } else {
      assert base[|base| - 1] == bucket[|bucket| - 1] && bucket[|bucket| - 1] in bucket;
      assert base + "/" + suffix == Rebuild(bucket, suffix);
    }
  }

  /** Below any parsable base, a relative path parses, keeps the bucket, and is rebuilt exactly. */
  lemma JoinedPathRoundTrips(base: string, suffix: string)
    requires ParseS3Uri(base).Ok? && !("/" <= suffix)
    ensures var path := JoinPath(base, suffix);
            && ParseS3Uri(path).Ok?
            && ParseS3Uri(path).value.0 == ParseS3Uri(base).value.0
            && Rebuild(ParseS3Uri(path).value.0, ParseS3Uri(path).value.1) == path
  {
    var (bucket, key) := ParseS3Uri(base).value;
    ParsedShape(base);
    JoinedPath(base, suffix, bucket, key);
    var key' :| JoinPath(base, suffix) == Rebuild(bucket, key');
    ParseOfRebuild(bucket, key');
  }

  // ---------- escaping ----------

  const SLASH: byte := 0x2F

  /** The characters that section 2.3 of RFC 3986 leaves unreserved. */
  predicate Unreserved(b: byte) {
    (0x41 <= b <= 0x5A) || (0x61 <= b <= 0x7A) || (0x30 <= b <= 0x39) || b == 0x2D || b == 0x2E || b == 0x5F || b == 0x7E
  }

  function HexDigit(d: byte): byte
    requires d < 16
  {
    if d < 10 then 0x30 + d else 0x41 + (d - 10)
  }

  function QuoteByte(b: byte, safe: set<byte>): Bytes {
    if Unreserved(b) || b in safe then [b] else [0x25, HexDigit(b / 16), HexDigit(b % 16)]
  }

  /** `urllib.parse.quote` on the UTF-8 bytes of a string, with the given extra safe bytes. */
  function Quote(s: Bytes, safe: set<byte>): Bytes {
    if s == [] then []
    else QuoteByte(s[0], safe) + Quote(s[1..], safe)
  }

  function HexValue(c: byte): Option<byte> {
    if 0x30 <= c <= 0x39 then Some(c - 0x30)
    else if 0x41 <= c <= 0x46 then Some(c - 0x41 + 10)
    else if 0x61 <= c <= 0x66 then Some(c - 0x61 + 10)
    else None
  }

  /** Percent-decoding (section 2.1 of RFC 3986); a '%' not followed by two hex digits stands for itself. */
  function Unquote(s: Bytes): Bytes {
    if s == [] then []
    else if s[0] == 0x25 && |s| >= 3 && HexValue(s[1]).Some? && HexValue(s[2]).Some? then
      [HexValue(s[1]).value * 16 + HexValue(s[2]).value] + Unquote(s[3..])
    else [s[0]] + Unquote(s[1..])
  }

  /** `s.split("/")`. */
  function Split(s: Bytes): (parts: seq<Bytes>)
    ensures parts != []
  {
    if s == [] then [[]]
    else
      var rest := Split(s[1..]);
      if s[0] == SLASH then [[]] + rest else [[s[0]] + rest[0]] + rest[1..]
  }

  /** `"/".join(parts)`. */
  function Join(parts: seq<Bytes>): Bytes {
    if parts == [] then []
    else if |parts| == 1 then parts[0]
    else parts[0] + [SLASH] + Join(parts[1..])
  }

  function QuoteAll(parts: seq<Bytes>): (r: seq<Bytes>)
    ensures |r| == |parts|
  {
    seq(|parts|, i requires 0 <= i < |parts| => Quote(parts[i], {}))
  }

  lemma QuoteCons(b: byte, s: Bytes, safe: set<byte>)
    ensures Quote([b] + s, safe) == QuoteByte(b, safe) + Quote(s, safe)
  {
    assert ([b] + s)[1..] == s;
  }

  lemma QuoteAllCons(part: Bytes, parts: seq<Bytes>)
    ensures QuoteAll([part] + parts) == [Quote(part, {})] + QuoteAll(parts)
  {
  }

  lemma SlashIsKept(b: byte)
    ensures QuoteByte(b, {SLASH}) == if b == SLASH then [SLASH] else QuoteByte(b, {})
  {
  }

  /** Escaping the segments one by one is escaping the whole string with '/' kept. */
  lemma {:induction false} SegmentwiseIsWhole(s: Bytes)
    ensures Join(QuoteAll(Split(s))) == Quote(s, {SLASH})
  {
    hide QuoteByte, QuoteAll;
    if s == [] {
      QuoteAllCons([], []);
      assert Split(s) == [[]] + [] && QuoteAll([]) == [];
    } else {
      var rest := Split(s[1..]);
      SegmentwiseIsWhole(s[1..]);
      SlashIsKept(s[0]);
      if s[0] == SLASH {
        QuoteAllCons([], rest);
        JoinEmpty(QuoteAll(rest));
      } else {
        var head := QuoteByte(s[0], {});
        QuoteCons(s[0], rest[0], {});
        QuoteAllCons([s[0]] + rest[0], rest[1..]);
        QuoteAllCons(rest[0], rest[1..]);
        assert rest == [rest[0]] + rest[1..];
        assert QuoteAll(rest)[1..] == QuoteAll(rest[1..]);
        JoinFirst(head, QuoteAll(rest));
      }
    }
  }

  lemma JoinEmpty(parts: seq<Bytes>)
    requires parts != []
    ensures Join([[]] + parts) == [SLASH] + Join(parts)
  {
    assert ([[]] + parts)[1..] == parts;
  }

  lemma JoinFirst(head: Bytes, parts: seq<Bytes>)
    requires parts != []
    ensures Join([head + parts[0]] + parts[1..]) == head + Join(parts)
  {
    var joined := [head + parts[0]] + parts[1..];
    assert joined[1..] == parts[1..];
    if |parts| > 1 {
      assert (head + parts[0]) + [SLASH] + Join(parts[1..]) == head + (parts[0] + [SLASH] + Join(parts[1..]));
    }
  }

  /** Percent-decoding undoes escaping, for every choice of safe bytes other than '%'. */
  lemma {:induction false} UnquoteOfQuote(s: Bytes, safe: set<byte>)
    requires 0x25 !in safe
    ensures Unquote(Quote(s, safe)) == s
  {
    if s != [] {
      UnquoteOfQuote(s[1..], safe);
      var rest := Quote(s[1..], safe);
      if Unreserved(s[0]) || s[0] in safe {
        assert ([s[0]] + rest)[1..] == rest;
      } else {
        var q := [0x25, HexDigit(s[0] / 16), HexDigit(s[0] % 16)] + rest;
        assert q[3..] == rest;
        assert HexValue(q[1]) == Some(s[0] / 16) && HexValue(q[2]) == Some(s[0] % 16);
      }
    }
  }

  /** Letters, digits, '-', '.', '_' and '~', by their codes. */
  predicate IsPlain(b: byte) {
    65 <= b <= 90 || 97 <= b <= 122 || 48 <= b <= 57 || b == 45 || b == 46 || b == 95 || b == 126
  }

  const UPPER_HEX: Bytes := [48, 49, 50, 51, 52, 53, 54, 55, 56, 57, 65, 66, 67, 68, 69, 70]

  /** A byte as it stands in an escaped path: itself, or a percent sign and two upper-case hexadecimal digits. */
  function Escaped(b: byte): Bytes {
    if IsPlain(b) || b == 47 then [b] else [37, UPPER_HEX[b / 16], UPPER_HEX[b % 16]]
  }

  /** Escaping is byte by byte. */
  lemma EscapedBytes(s: Bytes, b: byte)
    ensures Quote([], {SLASH}) == [] && Quote([b] + s, {SLASH}) == Escaped(b) + Quote(s, {SLASH})
  {
    QuoteCons(b, s, {SLASH});
    EscapedByte(b);
  }

  lemma EscapedByte(b: byte)
    ensures QuoteByte(b, {SLASH}) == Escaped(b)
  {
    UpperHexDigit(b / 16);
    UpperHexDigit(b % 16);
  }

  lemma UpperHexDigit(d: byte)
    requires d < 16
    ensures HexDigit(d) == UPPER_HEX[d]
  {
  }

  /** So every byte of an escaped path is plain, a slash, a percent sign or an upper-case digit. */
  lemma {:induction false} EscapedAlphabet(s: Bytes)
    ensures forall b <- Quote(s, {SLASH}) :: IsPlain(b) || b == 47 || b == 37
    ensures (forall b <- s :: IsPlain(b) || b == 47) ==> Quote(s, {SLASH}) == s
  {
    if s != [] {
      EscapedAlphabet(s[1..]);
      assert s == [s[0]] + s[1..];
      EscapedBytes(s[1..], s[0]);
      UpperHexIsPlain(s[0]);
    }
  }

  lemma UpperHexIsPlain(b: byte)
    ensures IsPlain(UPPER_HEX[b / 16]) && IsPlain(UPPER_HEX[b % 16])
  {
    assert forall d: byte :: d < 16 ==> IsPlain(UPPER_HEX[d]);
  }

  /** `_escape_path`: the loop over the segments. */
  method EscapePath(s: Bytes) returns (r: Bytes)
    ensures r == Quote(s, {SLASH})
    ensures Unquote(r) == s
    ensures forall b <- r :: IsPlain(b) || b == 47 || b == 37
    ensures (forall b <- s :: IsPlain(b) || b == 47) ==> r == s
  {
    EscapedAlphabet(s);
    UnquoteOfQuote(s, {SLASH});
    if s == [] {
      return s;
    }
    var parts: seq<Bytes> := [];
    var segments := Split(s);
    for i := 0 to |segments|
      invariant parts == QuoteAll(segments)[..i]
    {
      parts := parts + [Quote(segments[i], {})];
    }
    SegmentwiseIsWhole(s);
    assert parts == QuoteAll(segments);
    return Join(parts);
  }
}
