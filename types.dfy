/** Values shared by the buffer pools, the lock manager and the table statistics. */
module Types {

  datatype Option<T> = None | Some(value: T)

  /** A page is named by its table and its page number within that table. */
  datatype PageId = PageId(tableId: int, pageNumber: int)

  datatype TransactionId = TransactionId(id: int)

  /** The access a caller asks for when it fetches a page. */
  datatype Permissions = ReadOnly | ReadWrite

  datatype LockType = Share | Exclusive

  /** The byte image of a page; its layout belongs to the storage files. */
  type Content = seq<bv8>

  /** A page as the cache holds it: its identity, its image, and the transaction
      that dirtied it (None when the page is clean). */
  datatype Page = Page(id: PageId, content: Content, dirtier: Option<TransactionId>)
  {
    predicate IsDirty() { dirtier.Some? }
  }

  /** The exceptions the buffer pools raise. */
  datatype Error =
    | TransactionAborted   // the lock could not be granted
    | AllPagesDirty        // NO-STEAL eviction found no clean page
    | PageNotInFile        // the storage file has no such page
    | NullLink             // the recency list was unlinked past its sentinels

  datatype Outcome = Pass | Fail(error: Error)

  datatype Result<T> = Ok(value: T) | Err(error: Error)

  /** Java's 32-bit int. */
  newtype int32 = x: int | -0x8000_0000 <= x < 0x8000_0000

  /** Two's-complement wrap-around of an unbounded integer into 32 bits. */
  function Wrap32(x: int): (r: int32)
    ensures (r as int - x) % 0x1_0000_0000 == 0
    ensures -0x8000_0000 <= x < 0x8000_0000 ==> r as int == x
  {
    var m := x % 0x1_0000_0000;
    if m < 0x8000_0000 then m as int32 else (m - 0x1_0000_0000) as int32
  }
}
