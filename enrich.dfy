/**
 * What a notification shows besides the hash: the item name and image link worked out
 * from the token URI and the metadata it points to (main.py:240-256 for sales,
 * main.py:318-335 for mints, then main.py:267-268 and 341-342), and the mint time,
 * which the ledger counts from the Ripple epoch (main.py:315-316).
 *
 * Fetching the metadata is I/O: its reply is a parameter here.
 */
module Enrich {
  import opened Base
  import Hex
  import Text
  import Escape

  /**
   * A JSON metadata object: every key is kept, with its value when that is a string and
   * `None` for any other value (null, a number, a list, an object), so the object is
   * empty exactly when Python finds it falsy.
   */
  type Metadata = map<string, Option<string>>

  /** `meta.get(key)`, with a value that is not a string read as `None`. */
  function Get(meta: Metadata, key: string): Option<string> {
    if key in meta then meta[key] else None
  }

  /** `meta.get("image") or meta.get("image_url") or meta.get("imageUrl")`: the first non-empty one. */
  function ImageField(meta: Metadata): (r: Option<string>)
    ensures r.None? <==> !Truthy(Get(meta, "image")) && !Truthy(Get(meta, "image_url")) && !Truthy(Get(meta, "imageUrl"))
    ensures Truthy(Get(meta, "image")) ==> r == Get(meta, "image")
    ensures !Truthy(Get(meta, "image")) && Truthy(Get(meta, "image_url")) ==> r == Get(meta, "image_url")
    ensures !Truthy(Get(meta, "image")) && !Truthy(Get(meta, "image_url")) && Truthy(Get(meta, "imageUrl")) ==>
      r == Get(meta, "imageUrl")
    ensures r.Some? ==> r.value != "" && (r == Get(meta, "image") || r == Get(meta, "image_url") || r == Get(meta, "imageUrl"))
  {
    if Truthy(Get(meta, "image")) then Get(meta, "image")
    else if Truthy(Get(meta, "image_url")) then Get(meta, "image_url")
    else if Truthy(Get(meta, "imageUrl")) then Get(meta, "imageUrl")
    else None
  }

  /** The item name and image link before the name fallback and the "#" escape. */
  datatype Resolved = Resolved(name: Option<string>, image: Option<string>)

  /** `if uri_hex:` then `if uri:` (main.py:243-245): a token URI that decodes to a non-empty link. */
  predicate UsableUri(uriHex: Option<string>) {
    Truthy(uriHex) && Text.DecodeUri(uriHex.value).Some? && Text.DecodeUri(uriHex.value).value != ""
  }

  /**
   * A token URI that is missing, not valid hex or decodes to "" gives neither name nor
   * image. Otherwise, when the metadata reply is a non-empty object, its "name" and its
   * image field (rewritten from `ipfs://`) are used; when it is not, the decoded URI
   * itself becomes the image link.
   */
  function Resolve(uriHex: Option<string>, reply: Option<Metadata>): (r: Resolved)
    ensures !UsableUri(uriHex) ==> r == Resolved(None, None)
    ensures UsableUri(uriHex) && (reply.None? || reply.value == map[]) ==>
      r == Resolved(None, Text.DecodeUri(uriHex.value))
    ensures UsableUri(uriHex) && reply.Some? && reply.value != map[] ==>
      r.name == Get(reply.value, "name") &&
      (r.image.Some? <==> ImageField(reply.value).Some?) &&
      (r.image.Some? ==> r.image.value == Text.IpfsToGateway(ImageField(reply.value).value))
    ensures r.name.Some? ==> reply.Some? && r.name == Get(reply.value, "name")
    ensures r.image.Some? ==> r.image.value != "" && !StartsWith(r.image.value, Text.IpfsScheme)
  {
    if !Truthy(uriHex) then Resolved(None, None)
    else
      match Text.DecodeUri(uriHex.value)
      case None => Resolved(None, None)
      case Some(uri) =>
        if uri == "" then Resolved(None, None)
        else if reply.Some? && reply.value != map[] then
          var link := ImageField(reply.value);
          Resolved(Get(reply.value, "name"), if link.Some? then Some(Text.IpfsToGateway(link.value)) else None)
        else Resolved(None, Some(uri))
  }

  /** What the notification shows: a name and, maybe, an image link. */
  datatype Enriched = Enriched(name: string, image: Option<string>)

  /** The image link as sent: every "#" replaced by "%23". */
  function FinalImage(image: Option<string>): (r: Option<string>)
    ensures r.None? <==> image.None?
    ensures r.Some? ==> '#' !in r.value && (image.value != "" ==> r.value != "")
  {
    if image.Some? then Some(Escape.EscapeHash(image.value)) else None
  }

  /** A sale falls back to the abbreviated token id when the metadata gives no name. */
  function EnrichSale(nftokenId: Option<string>, uriHex: Option<string>, reply: Option<Metadata>): (e: Enriched)
    ensures e.name != "" && (e.image.Some? ==> e.image.value != "" && '#' !in e.image.value)
    ensures !Truthy(Resolve(uriHex, reply).name) ==> e.name == Text.Abbr(nftokenId, Text.AbbrLength)
    ensures Truthy(Resolve(uriHex, reply).name) ==> e.name == Resolve(uriHex, reply).name.value
    ensures e.image == FinalImage(Resolve(uriHex, reply).image)
  {
    var res := Resolve(uriHex, reply);
    var name := if Truthy(res.name) then res.name.value else Text.Abbr(nftokenId, Text.AbbrLength);
    Enriched(name, FinalImage(res.image))
  }

  const UnknownName: string := "Unknown NFT"

  /** A mint falls back to "Unknown NFT" when the metadata gives no name. */
  function EnrichMint(uriHex: Option<string>, reply: Option<Metadata>): (e: Enriched)
    ensures e.name != "" && (e.image.Some? ==> e.image.value != "" && '#' !in e.image.value)
    ensures !Truthy(Resolve(uriHex, reply).name) ==> e.name == UnknownName
    ensures Truthy(Resolve(uriHex, reply).name) ==> e.name == Resolve(uriHex, reply).name.value
    ensures e.image == FinalImage(Resolve(uriHex, reply).image)
  {
    var res := Resolve(uriHex, reply);
    var name := if Truthy(res.name) then res.name.value else UnknownName;
    Enriched(name, FinalImage(res.image))
  }

  /**
   * Whatever the token URI and the metadata, the image link a notification sends never
   * starts with `ipfs://`: both the decoded token URI (main.py:253, 332) and an image field
   * (main.py:251, 330) are rewritten to the gateway, and the "#" escape keeps that so.
   */
  lemma SentImageIsNeverIpfs(nftokenId: Option<string>, uriHex: Option<string>, reply: Option<Metadata>)
    ensures EnrichSale(nftokenId, uriHex, reply).image.Some? ==>
      !StartsWith(EnrichSale(nftokenId, uriHex, reply).image.value, Text.IpfsScheme)
    ensures EnrichMint(uriHex, reply).image.Some? ==>
      !StartsWith(EnrichMint(uriHex, reply).image.value, Text.IpfsScheme)
  {
    var res := Resolve(uriHex, reply);
    if res.image.Some? {
      EscapeKeepsNonIpfs(res.image.value);
    }
  }

  /** Escaping "#" cannot turn a link into an `ipfs://` one. */
  lemma EscapeKeepsNonIpfs(link: string)
    requires !StartsWith(link, Text.IpfsScheme)
    ensures !StartsWith(Escape.EscapeHash(link), Text.IpfsScheme)
  {
    assert Text.IpfsScheme == ['i', 'p', 'f', 's', ':', '/', '/'];
    Escape.EscapeHashPrefix(link, Text.IpfsScheme);
  }

  /**
   * Metadata that is a non-empty object without a single string value (say `{"name": null}`)
   * is still truthy: no name, no image, and the token URI is not used as the image either.
   */
  lemma NonStringMetadata(nftokenId: Option<string>, uriHex: Option<string>, meta: Metadata)
    requires UsableUri(uriHex) && meta != map[]
    requires forall k :: k in meta ==> meta[k].None?
    ensures EnrichSale(nftokenId, uriHex, Some(meta)) == Enriched(Text.Abbr(nftokenId, Text.AbbrLength), None)
    ensures EnrichMint(uriHex, Some(meta)) == Enriched(UnknownName, None)
  {
    assert ImageField(meta).None?;
  }

  /** A token URI that is not valid hex yields the fallback name and no image, whatever the reply. */
  lemma InvalidUriFallsBack(nftokenId: Option<string>, uriHex: Option<string>, reply: Option<Metadata>)
    requires uriHex.Some? && Hex.FromHex(uriHex.value).None?
    ensures EnrichSale(nftokenId, uriHex, reply) == Enriched(Text.Abbr(nftokenId, Text.AbbrLength), None)
    ensures EnrichMint(uriHex, reply) == Enriched(UnknownName, None)
  {
  }

  /**
   * A token whose URI is `ipfs://CID`, with a CID of safe characters, and whose metadata
   * fetch fails, is shown with the gateway link `https://ipfs.io/ipfs/CID`.
   */
  lemma IpfsUriWithoutMetadata(uriHex: string, cid: string)
    requires Hex.FromHex(uriHex).Some?
    requires Text.DecodedText(Hex.FromHex(uriHex).value) == Text.IpfsScheme + cid
    requires Text.AllQuoteSafe(cid)
    ensures EnrichMint(Some(uriHex), None).image == Some(Text.IpfsGateway + cid)
    ensures forall id :: EnrichSale(id, Some(uriHex), None).image == Some(Text.IpfsGateway + cid)
  {
    Text.DecodeUriIpfs(uriHex, cid);
    Text.QuoteSafeIdentity(cid);
    var uri := Text.IpfsGateway + cid;
    assert uriHex != "" by {
      assert Hex.FromHex("") == Some([]);
      assert Text.DecodedText([]) == "";
    }
    assert Resolve(Some(uriHex), None) == Resolved(None, Some(uri));
    assert FinalImage(Some(uri)) == Some(uri);
  }

  /**
   * An `ipfs://` image link found in the metadata, under whichever of its three keys, is
   * rewritten to the gateway and then "#"-escaped, for a sale and for a mint alike.
   */
  lemma IpfsImageLink(uriHex: string, meta: Metadata, path: string)
    requires Text.DecodeUri(uriHex).Some? && Text.DecodeUri(uriHex).value != ""
    requires meta != map[] && ImageField(meta) == Some(Text.IpfsScheme + path)
    ensures EnrichMint(Some(uriHex), Some(meta)).image == Some(Escape.EscapeHash(Text.IpfsGateway + path))
    ensures forall id :: EnrichSale(id, Some(uriHex), Some(meta)).image == Some(Escape.EscapeHash(Text.IpfsGateway + path))
  {
    ResolveIpfsImage(uriHex, meta, path);
  }

  /** The resolved image of an `ipfs://` image field is its gateway link. */
  lemma ResolveIpfsImage(uriHex: string, meta: Metadata, path: string)
    requires Text.DecodeUri(uriHex).Some? && Text.DecodeUri(uriHex).value != ""
    requires meta != map[] && ImageField(meta) == Some(Text.IpfsScheme + path)
    ensures Resolve(Some(uriHex), Some(meta)).image == Some(Text.IpfsGateway + path)
  {
    assert uriHex != "" by {
      assert Hex.FromHex("") == Some([]);
      assert Text.DecodedText([]) == "";
    }
    var link := Text.IpfsScheme + path;
    assert link[..|Text.IpfsScheme|] == Text.IpfsScheme;
    assert link[|Text.IpfsScheme|..] == path;
  }

  /** Seconds from 1970-01-01 to 2000-01-01, where the ledger's clock starts. */
  const RippleEpochOffset: int := 946684800

  predicate IsLeapYear(y: nat) {
    y % 4 == 0 && (y % 100 != 0 || y % 400 == 0)
  }

  /** Days from 1 January 1970 to 1 January of `year`. */
  function DaysSince1970(year: nat): nat
    requires year >= 1970
    decreases year
  {
    if year == 1970 then 0 else DaysSince1970(year - 1) + (if IsLeapYear(year - 1) then 366 else 365)
  }

  /** The offset is exactly the seconds in the 30 Gregorian years 1970-1999. */
  lemma RippleEpochIsYear2000()
    ensures RippleEpochOffset == DaysSince1970(2000) * 86400
  {
    assert DaysSince1970(1975) == 1826;
    assert DaysSince1970(1980) == 3652;
    assert DaysSince1970(1985) == 5479;
    assert DaysSince1970(1990) == 7305;
    assert DaysSince1970(1995) == 9131;
    assert DaysSince1970(2000) == 10957;
  }

  /**
   * The mint time as Unix seconds: the ledger's `date` plus the offset; a missing or
   * zero date shows "N/A" (None).
   */
  function MintUnixTime(date: Option<int>): (t: Option<int>)
    ensures t.Some? <==> date.Some? && date.value != 0
    ensures t.Some? ==> t.value - RippleEpochOffset == date.value
    ensures t.Some? ==> t.value == DaysSince1970(2000) * 86400 + date.value
  {
    RippleEpochIsYear2000();
    if date.Some? && date.value != 0 then Some(date.value + RippleEpochOffset) else None
  }
}
