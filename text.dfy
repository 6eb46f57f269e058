/**
 * The pure string helpers of main.py: `abbr` (main.py:109-112), `decode_uri`
 * (main.py:114-124) with its NUL stripping and `urllib.parse.quote` step, the
 * `ipfs://` gateway rewrite shared by `decode_uri` and the metadata image links
 * (main.py:121-123, 251, 330), and the `#` to `%23` replacement on image links
 * (main.py:171, 267-268, 341-342).
 */
module Text {
  import opened Base
  import Hex
  import Utf8

  /** The default `length` argument of `abbr`; every call site uses it. */
  const AbbrLength: nat := 5

  /**
   * `abbr(text, length)`: a text longer than `length` is cut to its first `length`
   * characters followed by "..."; a missing or empty text becomes "N/A"; anything
   * else is returned as it is.
   */
  function Abbr(text: Option<string>, length: nat): (r: string)
    ensures !Truthy(text) ==> r == "N/A"
    ensures Truthy(text) && |text.value| <= length ==> r == text.value
    ensures Truthy(text) && |text.value| > length ==>
      |r| == length + 3 && r[..length] == text.value[..length] && r[length..] == "..."
  {
    if Truthy(text) && |text.value| > length then text.value[..length] + "..."
    else if Truthy(text) then text.value
    else "N/A"
  }

  /** Abbreviating an abbreviation changes nothing (for any length that fits "N/A"). */
  lemma AbbrIdempotent(text: Option<string>, length: nat)
    requires length >= 3
    ensures Abbr(Some(Abbr(text, length)), length) == Abbr(text, length)
  {
    var r := Abbr(text, length);
    if Truthy(text) && |text.value| > length {
      assert r[..length] + "..." == r;
    }
  }

  const Nul: char := '\0'

  /** The number of NUL characters at the start of `s`. */
  function LeadingNuls(s: string): (k: nat)
    ensures k <= |s|
    ensures forall i :: 0 <= i < k ==> s[i] == Nul
    ensures k < |s| ==> s[k] != Nul
  {
    if s != "" && s[0] == Nul then 1 + LeadingNuls(s[1..]) else 0
  }

  /** The number of NUL characters at the end of `s`. */
  function TrailingNuls(s: string): (k: nat)
    ensures k <= |s|
    ensures forall i :: |s| - k <= i < |s| ==> s[i] == Nul
    ensures k < |s| ==> s[|s| - 1 - k] != Nul
  {
    if s != "" && s[|s| - 1] == Nul then 1 + TrailingNuls(s[..|s| - 1]) else 0
  }

  /** `n` NUL characters. */
  function Nuls(n: nat): (s: string)
    ensures |s| == n && forall i :: 0 <= i < n ==> s[i] == Nul
  {
    seq(n, _ => Nul)
  }

  /**
   * `s.strip("\x00")`: the result neither starts nor ends with a NUL, and `s` is the
   * result with only NULs around it.
   */
  function StripNul(s: string): (r: string)
    ensures r == "" || (r[0] != Nul && r[|r| - 1] != Nul)
    ensures LeadingNuls(s) + |r| <= |s| && s == Nuls(LeadingNuls(s)) + r + Nuls(|s| - |r| - LeadingNuls(s))
  {
    var a := LeadingNuls(s);
    var t := s[a..];
    var r := t[..|t| - TrailingNuls(t)];
    assert s == s[..a] + r + s[a + |r|..];
    assert s[..a] == Nuls(a);
    assert s[a + |r|..] == Nuls(|s| - |r| - a);
    r
  }

  /** Stripping a string that neither starts nor ends with a NUL changes nothing. */
  lemma StripNulNoop(s: string)
    requires s == "" || (s[0] != Nul && s[|s| - 1] != Nul)
    ensures StripNul(s) == s
  {
    assert LeadingNuls(s) == 0;
    assert s[0..] == s;
    assert TrailingNuls(s) == 0;
  }

  /** Stripping twice strips no more than once. */
  lemma StripNulIdempotent(s: string)
    ensures StripNul(StripNul(s)) == StripNul(s)
  {
    StripNulNoop(StripNul(s));
  }

  /**
   * The characters `quote(_, safe=":/?&=%")` leaves alone: ASCII letters and digits,
   * "_.-~" (always safe) and the explicit safe set ":/?&=%".
   */
  predicate IsQuoteSafe(c: char) {
    ('a' <= c <= 'z') || ('A' <= c <= 'Z') || ('0' <= c <= '9')
    || c == '_' || c == '.' || c == '-' || c == '~'
    || c == ':' || c == '/' || c == '?' || c == '&' || c == '=' || c == '%'
  }

  predicate AllQuoteSafe(s: string) {
    forall i :: 0 <= i < |s| ==> IsQuoteSafe(s[i])
  }

  /** The upper-case digit `quote` writes after "%". */
  function UpperDigit(v: nat): (c: char)
    requires v < 16
    ensures IsQuoteSafe(c) && c != '%'
  {
    "0123456789ABCDEF"[v]
  }

  /** "%XX" for every byte. */
  function PercentEncode(bs: seq<Byte>): (s: string)
    ensures |s| == 3 * |bs|
    ensures AllQuoteSafe(s)
    ensures bs != [] ==> s[0] == '%'
  {
    if bs == [] then "" else ['%', UpperDigit(bs[0] / 16), UpperDigit(bs[0] % 16)] + PercentEncode(bs[1..])
  }

  /** How `quote` writes one character: kept if safe, else its UTF-8 bytes percent-encoded. */
  function QuoteChar(c: char): (s: string)
    ensures AllQuoteSafe(s) && s != ""
    ensures IsQuoteSafe(c) ==> s == [c]
    ensures !IsQuoteSafe(c) ==> s[0] == '%'
  {
    if IsQuoteSafe(c) then [c] else PercentEncode(Utf8.EncodeChar(c))
  }

  /** `urllib.parse.quote(s, safe=":/?&=%")`; every character of the result is safe. */
  function Quote(s: string): (r: string)
    ensures AllQuoteSafe(r)
    ensures |s| <= |r|
  {
    if s == "" then "" else QuoteChar(s[0]) + Quote(s[1..])
  }

  /** Quoting works character by character, so it distributes over concatenation. */
  lemma {:induction false} QuoteAppend(a: string, b: string)
    ensures Quote(a + b) == Quote(a) + Quote(b)
  {
    if a != "" {
      assert (a + b)[1..] == a[1..] + b;
      assert (a + b)[0] == a[0];
      assert Quote(a + b) == QuoteChar(a[0]) + Quote(a[1..] + b);
      QuoteAppend(a[1..], b);
      assert Quote(a) == QuoteChar(a[0]) + Quote(a[1..]);
    } else {
      assert a + b == b;
    }
  }

  /** A string of safe characters is its own quotation. */
  lemma {:induction false} QuoteSafeIdentity(s: string)
    requires AllQuoteSafe(s)
    ensures Quote(s) == s
  {
    if s != "" {
      QuoteSafeIdentity(s[1..]);
    }
  }

  /** Because "%" is in the safe set, quoting an already quoted string changes nothing. */
  lemma QuoteIdempotent(s: string)
    ensures Quote(Quote(s)) == Quote(s)
  {
    QuoteSafeIdentity(Quote(s));
  }

  /**
   * A quoted string starts with a prefix of safe characters other than "%" exactly when
   * the unquoted one does: such characters can only come from themselves.
   */
  lemma {:induction false} QuotePrefix(s: string, p: string)
    requires AllQuoteSafe(p) && '%' !in p
    ensures StartsWith(Quote(s), p) <==> StartsWith(s, p)
  {
    if p != "" && s != "" {
      var q := Quote(s);
      assert p[0] in p;
      assert AllQuoteSafe(p[1..]) && '%' !in p[1..] by {
        forall i | 0 <= i < |p| - 1 ensures p[1..][i] == p[i + 1] { }
      }
      QuotePrefix(s[1..], p[1..]);
      StartsWithCons(s, p);
      StartsWithCons(q, p);
      if IsQuoteSafe(s[0]) {
        assert q == [s[0]] + Quote(s[1..]);
        assert q[1..] == Quote(s[1..]);
      } else {
        assert q[0] == '%';
      }
    }
  }

  const IpfsScheme: string := "ipfs://"
  const IpfsGateway: string := "https://ipfs.io/ipfs/"

  /**
   * The gateway rewrite: a link `ipfs://X` becomes `https://ipfs.io/ipfs/X`; any other link
   * is kept. The result never starts with "ipfs://".
   */
  function IpfsToGateway(link: string): (r: string)
    ensures StartsWith(link, IpfsScheme) ==> r == IpfsGateway + link[|IpfsScheme|..]
    ensures !StartsWith(link, IpfsScheme) ==> r == link
    ensures !StartsWith(r, IpfsScheme)
    ensures AllQuoteSafe(link) ==> AllQuoteSafe(r)
  {
    if StartsWith(link, IpfsScheme) then
      var r := IpfsGateway + link[|IpfsScheme|..];
      assert r[0] != IpfsScheme[0];
      r
    else link
  }

  /** Rewriting a rewritten link changes nothing. */
  lemma IpfsToGatewayIdempotent(link: string)
    ensures IpfsToGateway(IpfsToGateway(link)) == IpfsToGateway(link)
  {
  }

  /** The text a hex URI carries once hex-decoded, UTF-8 decoded and NUL-stripped. */
  function DecodedText(bytes: seq<Byte>): string {
    StripNul(Utf8.Decode(bytes))
  }

  /**
   * `decode_uri(hex_uri)`: hex-decode (None on invalid hex), UTF-8 decode ignoring
   * errors, strip NULs, quote, then rewrite `ipfs://`. A result is never an `ipfs://`
   * link and never holds a "#".
   */
  function DecodeUri(hexUri: string): (r: Option<string>)
    ensures r.None? <==> Hex.FromHex(hexUri).None?
    ensures r.Some? ==> !StartsWith(r.value, IpfsScheme) && AllQuoteSafe(r.value) && '#' !in r.value
  {
    match Hex.FromHex(hexUri)
    case None => None
    case Some(bytes) => Some(IpfsToGateway(Quote(DecodedText(bytes))))
  }

  /** An `ipfs://CID` URI resolves to the gateway URL for the quoted CID. */
  lemma DecodeUriIpfs(hexUri: string, cid: string)
    requires Hex.FromHex(hexUri).Some?
    requires DecodedText(Hex.FromHex(hexUri).value) == IpfsScheme + cid
    ensures DecodeUri(hexUri) == Some(IpfsGateway + Quote(cid))
  {
    QuoteIpfsScheme(cid);
    var uri := IpfsScheme + Quote(cid);
    assert uri[..|IpfsScheme|] == IpfsScheme;
    assert uri[|IpfsScheme|..] == Quote(cid);
  }

  /** "ipfs://" consists of safe characters, so quoting leaves it in place. */
  lemma QuoteIpfsScheme(cid: string)
    ensures Quote(IpfsScheme + cid) == IpfsScheme + Quote(cid)
  {
    QuoteAppend(IpfsScheme, cid);
    IpfsSchemeIsSafe();
    QuoteSafeIdentity(IpfsScheme);
  }

  lemma IpfsSchemeIsSafe()
    ensures AllQuoteSafe(IpfsScheme) && '%' !in IpfsScheme
  {
  }

  /** Any other URI is returned quoted and otherwise unchanged. */
  lemma DecodeUriPlain(hexUri: string)
    requires Hex.FromHex(hexUri).Some?
    requires !StartsWith(DecodedText(Hex.FromHex(hexUri).value), IpfsScheme)
    ensures DecodeUri(hexUri) == Some(Quote(DecodedText(Hex.FromHex(hexUri).value)))
  {
    var text := DecodedText(Hex.FromHex(hexUri).value);
    IpfsSchemeIsSafe();
    QuotePrefix(text, IpfsScheme);
    assert IpfsToGateway(Quote(text)) == Quote(text);
  }

  /**
   * End to end: a URI written on chain as the hex of its UTF-8 bytes decodes back to the
   * same URI, quoted and rewritten to the gateway when it is an `ipfs://` link.
   */
  lemma DecodeUriOfEncoded(uri: string)
    requires uri == "" || (uri[0] != Nul && uri[|uri| - 1] != Nul)
    ensures DecodeUri(Hex.ToHex(Utf8.Encode(uri))) == Some(IpfsToGateway(Quote(uri)))
  {
    Hex.FromHexToHex(Utf8.Encode(uri));
    Utf8.DecodeEncode(uri);
    StripNulNoop(uri);
  }
}
