/** Pages: the 4 KB blocks that the disk manager reads and writes. */
module Pages {
  type PageId = nat

  const INVALID_PAGE_ID: PageId := 0xFFFF_FFFF
  const PAGE_SIZE := 4096
  const HEADER_SIZE := 12 // sizeof(PageHeader)
  const BODY_SIZE := PAGE_SIZE - HEADER_SIZE

  datatype PageHeader = PageHeader(pageId: PageId, freeSpace: nat, recordCount: nat, checksum: nat)

  /** The bytes of a page: the decoded header, and the rest as raw characters. */
  datatype RawBlock = Block(header: PageHeader, body: string)

  type Block = b: RawBlock | |b.body| == BODY_SIZE
    witness EmptyBlock(0)

  /** What Page(id) starts as: a header, and zero bytes after it. */
  function EmptyBlock(id: PageId): RawBlock {
    Block(PageHeader(id, BODY_SIZE, 0, 0), seq(BODY_SIZE, _ => '\0'))
  }

  /** One page in memory, with its dirty bit and pin count. */
  class Page {
    ghost const home: PageId // the page it was made for
    var block: Block
    var dirty: bool
    var pinCount: nat

    constructor (id: PageId)
      ensures home == id && block == EmptyBlock(id) && !dirty && pinCount == 0
    {
      home, block, dirty, pinCount := id, EmptyBlock(id), false, 0;
    }
  }

  /** The database file: page id -> block, with readPage, writePage and allocatePage. */
  class DiskManager {
    var blocks: seq<Block>

    constructor ()
      ensures blocks == []
    {
      blocks := [];
    }

    /** The source overwrites `page` in place, and throws when the id is past the end. */
    method ReadPage(id: PageId, page: Page) returns (ok: bool)
      modifies page`block
      ensures ok == (id < |blocks|)
      ensures page.block == if ok then blocks[id] else old(page.block)
    {
      ok := id < |blocks|;
      if ok {
        page.block := blocks[id];
      }
    }

    /** Writing past the end extends the file; the pool never does it. */
    method WritePage(id: PageId, b: Block)
      requires id <= |blocks|
      modifies this
      ensures blocks == if id < |old(blocks)| then old(blocks)[id := b] else old(blocks) + [b]
    {
      blocks := if id < |blocks| then blocks[id := b] else blocks + [b];
    }

    method AllocatePage() returns (id: PageId)
      modifies this
      ensures id == |old(blocks)| && blocks == old(blocks) + [EmptyBlock(id)]
    {
      id := |blocks|;
      WritePage(id, EmptyBlock(id));
    }
  }
}
