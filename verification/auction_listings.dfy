/** `get_auction_listings`: fetch the auction data pointer of a realm, skip
    the listings when the pointer has not changed since `cutoff`, and fetch
    them from the pointed-to URL otherwise. Each fetch is a call of the retry
    executor that eventually returns; here it is a function from URL to the
    decoded reply. */
module AuctionListings {
  import opened ApiTypes

  /** The fixed parts of the auction data status URL. */
  const StatusUrlBase: string := "https://us.api.battle.net/wow/auction/data/"
  const StatusUrlQuery: string := "?locale=en_US&apikey="

  /** The auction data status URL of a realm: the base, the realm's slug,
      then the query carrying the API key. */
  function AuctionDataUrl(realmSlug: string, token: string): (url: string)
    ensures |url| == |StatusUrlBase| + |realmSlug| + |StatusUrlQuery| + |token|
    ensures url[..|StatusUrlBase|] == StatusUrlBase
    ensures url[|StatusUrlBase|..|StatusUrlBase| + |realmSlug|] == realmSlug
    ensures url[|url| - |token|..] == token
  {
    StatusUrlBase + realmSlug + StatusUrlQuery + token
  }

  /** With one API key, different realms get different status URLs. */
  lemma AuctionDataUrlDistinguishesRealms(slug: string, other: string, token: string)
    requires slug != other
    ensures AuctionDataUrl(slug, token) != AuctionDataUrl(other, token)
  {
  }

  /** The freshness gate: a snapshot last modified at `lastModified` is worth
      fetching only when it is strictly newer than `cutoff`. A snapshot
      modified at the cutoff itself is not newer, and nothing is newer than
      the largest cutoff. */
  predicate IsNewer(lastModified: u64, cutoff: u64)
    ensures lastModified == cutoff ==> !IsNewer(lastModified, cutoff)
    ensures cutoff == 0xFFFF_FFFF_FFFF_FFFF ==> !IsNewer(lastModified, cutoff)
    ensures IsNewer(lastModified, cutoff) ==> lastModified > 0
  {
    lastModified > cutoff
  }

  /** The pointer `files.pop()` takes: the last one. */
  function SelectPointer(reply: AuctionDataReply): (p: AuctionDataPointer)
    requires |reply.files| > 0
    ensures p in reply.files
    ensures |reply.files| == 1 ==> p == reply.files[0]
  {
    reply.files[|reply.files| - 1]
  }

  /** What a call returns, and the URLs it fetched, in order. */
  datatype ListingsFetch = ListingsFetch(result: Option<(u64, seq<AuctionListing>)>, fetched: seq<string>)

  /** `fetchStatus` and `fetchListings` stand for the two executor calls. The
      status reply must hold a pointer: `get_auction_listings` unwraps the
      popped pointer. */
  function GetAuctionListings(token: string, realmSlug: string, cutoff: u64,
                              fetchStatus: string -> AuctionDataReply,
                              fetchListings: string -> AuctionListingsReply): (r: ListingsFetch)
    requires |fetchStatus(AuctionDataUrl(realmSlug, token)).files| > 0
    ensures var files := fetchStatus(AuctionDataUrl(realmSlug, token)).files;
            var p := files[|files| - 1];
            && (r.result.None? <==> p.lastModified <= cutoff)
            && (r.result.None? ==> r.fetched == [AuctionDataUrl(realmSlug, token)])
            && (r.result.Some? ==>
                  && r.fetched == [AuctionDataUrl(realmSlug, token), p.url]
                  && r.result.value == (p.lastModified, fetchListings(p.url).auctions))
  {
    var statusUrl := AuctionDataUrl(realmSlug, token);
    var pointer := SelectPointer(fetchStatus(statusUrl));
    if !IsNewer(pointer.lastModified, cutoff) then
      ListingsFetch(None, [statusUrl])
    else
      var listings := fetchListings(pointer.url);
      ListingsFetch(Some((pointer.lastModified, listings.auctions)), [statusUrl, pointer.url])
  }

  /** Raising the cutoff never makes the call fetch listings it skipped. */
  lemma SkipPersistsAsCutoffRises(token: string, realmSlug: string, cutoff: u64, later: u64,
                                  fetchStatus: string -> AuctionDataReply,
                                  fetchListings: string -> AuctionListingsReply)
    requires |fetchStatus(AuctionDataUrl(realmSlug, token)).files| > 0
    requires cutoff <= later
    requires GetAuctionListings(token, realmSlug, cutoff, fetchStatus, fetchListings).result.None?
    ensures GetAuctionListings(token, realmSlug, later, fetchStatus, fetchListings).result.None?
    ensures |GetAuctionListings(token, realmSlug, later, fetchStatus, fetchListings).fetched| == 1
  {
  }

  /** A status reply whose one pointer was last modified at `lastModified`. */
  function StatusReply(lastModified: u64): AuctionDataReply
  {
    AuctionDataReply([AuctionDataPointer("https://auction-api-us.worldofwarcraft.com/auctions.json", lastModified)])
  }

  /** A listings reply holding one auction: item 1, buyout 500, quantity 10. */
  function OneListingReply(): AuctionListingsReply
  {
    AuctionListingsReply([], [AuctionListing(1, 500, 10)])
  }

  /** A pointer modified exactly at the cutoff is not newer: nothing is returned. */
  lemma UnchangedSnapshotIsSkipped()
    ensures GetAuctionListings("token", "medivh", 100, _ => StatusReply(100), _ => OneListingReply())
            == ListingsFetch(None, [AuctionDataUrl("medivh", "token")])
  {
  }

  /** A pointer modified after the cutoff yields its time and the listings. */
  lemma NewerSnapshotIsFetched()
    ensures GetAuctionListings("token", "medivh", 100, _ => StatusReply(150), _ => OneListingReply()).result
            == Some((150, [AuctionListing(1, 500, 10)]))
  {
  }
}
