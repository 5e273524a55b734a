/** Data shapes exchanged with the Battle.net WoW API, as far as the client
    reads them, plus the small Option type the operations return. */
module ApiTypes {

  /** Rust's `Option`: `None` or `Some(value)`. */
  datatype Option<+T> = None | Some(value: T)

  /** Rust's `u64`: the integer width of ids, prices, quantities and timestamps. */
  type u64 = x: int | 0 <= x < 0x1_0000_0000_0000_0000

  /** One realm of the realm status reply. `connectedRealms` lists the slugs
      of every realm sharing its auction house, itself included. */
  datatype RealmInfo = RealmInfo(name: string, slug: string, connectedRealms: seq<string>)

  /** The fields of an item info reply the client keeps. */
  datatype ItemInfo = ItemInfo(id: u64, name: string, icon: string)

  /** One auction; a buyout of 0 means "no buyout". */
  datatype AuctionListing = AuctionListing(item: u64, buyout: u64, quantity: u64)

  /** The bulk listings payload behind an auction data pointer. Its realm
      entries are loosely typed string maps, not `RealmInfo`. */
  datatype AuctionListingsReply = AuctionListingsReply(realms: seq<map<string, string>>,
                                                       auctions: seq<AuctionListing>)

  /** Where the current listings snapshot of a realm lives, and when it last changed. */
  datatype AuctionDataPointer = AuctionDataPointer(url: string, lastModified: u64)

  /** The auction data status reply; in practice `files` holds one pointer. */
  datatype AuctionDataReply = AuctionDataReply(files: seq<AuctionDataPointer>)
}
