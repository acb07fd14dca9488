/**
 * The in-memory block and its content payload (src-tauri/src/blocks/mod.rs),
 * the row the `blocks` table stores for it, and the pure constructors.
 */
module Blocks {
  import opened Wrappers

  /** Identifiers are stored in their canonical text form; a v7 UUID is opaque here. */
  type Uuid = string

  /** An instant in time; its RFC-3339 text encoding is not modelled. */
  type Timestamp = int

  /** The content payload, stored as one serialized text column `data`. */
  datatype BlockContent = BlockContent(contentType: string, contents: Option<string>, title: Option<string>)

  /**
   * A block as the program holds it in memory. `blockOrder` is `None` until the
   * block has been read back from the table; `children` is a view filled only on read.
   */
  datatype Block = Block(
    id: Uuid,
    parentId: Uuid,
    blockType: string,
    blockContents: BlockContent,
    blockOrder: Option<int>,
    favorite: bool,
    children: seq<Block>,
    createdAt: Timestamp,
    updatedAt: Timestamp)

  /** One row of the `blocks` table. `block_order` is NOT NULL, so it is a plain `int`. */
  datatype Row = Row(
    id: Uuid,
    parentId: Uuid,
    blockType: string,
    data: BlockContent,
    blockOrder: int,
    favorite: bool,
    createdAt: Timestamp,
    updatedAt: Timestamp)

  /** `block_type_from_content_type`: "page" stays "page", everything else is "text". */
  function BlockTypeFromContentType(contentType: string): (blockType: string)
    ensures blockType == "page" <==> contentType == "page"
    ensures blockType != "page" ==> blockType == "text"
    ensures blockType != "workspace"
  {
    match contentType
    case "paragraph" => "text"
    case "page" => "page"
    case _ => "text"
  }

  /** `BlockContent::new`: a payload carrying `rawData` and no title. */
  function NewBlockContent(contentType: string, rawData: string): (c: BlockContent)
    ensures c.contentType == contentType && c.contents == Some(rawData) && c.title == None
  {
    BlockContent(contentType, Some(rawData), None)
  }

  /** A block that has not been saved: no order, not a favourite, no children. */
  predicate IsUnsaved(b: Block)
  {
    b.blockOrder == None && !b.favorite && b.children == []
  }

  /**
   * `Block::new`. The fresh id (`Uuid::now_v7`) and the two clock readings
   * (`Utc::now`) are supplied by the caller.
   */
  function NewBlock(id: Uuid, parentId: Uuid, contentType: string, rawData: string,
                    createdAt: Timestamp, updatedAt: Timestamp): (b: Block)
    ensures IsUnsaved(b)
    ensures b.id == id && b.parentId == parentId
    ensures b.blockType == BlockTypeFromContentType(contentType)
    ensures b.blockType in {"page", "text"}
    ensures b.blockContents == BlockContent(contentType, Some(rawData), None)
    ensures b.createdAt == createdAt && b.updatedAt == updatedAt
  {
    Block(id, parentId, BlockTypeFromContentType(contentType), NewBlockContent(contentType, rawData),
          None, false, [], createdAt, updatedAt)
  }

  /** The row `save` writes for `b`: every stored field of `b`, with the computed order. */
  function ToRow(b: Block, order: int): (r: Row)
    ensures r.id == b.id && r.parentId == b.parentId && r.blockOrder == order
  {
    Row(b.id, b.parentId, b.blockType, b.blockContents, order, b.favorite, b.createdAt, b.updatedAt)
  }

  /** The column decoding of `from_row`, given the children it loaded for the row. */
  function FromRowWith(r: Row, children: seq<Block>): (b: Block)
    ensures b.id == r.id && b.parentId == r.parentId && b.blockOrder == Some(r.blockOrder)
    ensures b.children == children
  {
    Block(r.id, r.parentId, r.blockType, r.data, Some(r.blockOrder), r.favorite, children, r.createdAt, r.updatedAt)
  }

  /** Encoding a block and decoding the row with the block's children gives the block back, now ordered. */
  lemma BlockRoundTrip(b: Block, order: int)
    ensures FromRowWith(ToRow(b, order), b.children) == b.(blockOrder := Some(order))
  {
  }

  /** Decoding a row and encoding it again with its own order gives the row back. */
  lemma RowRoundTrip(r: Row, children: seq<Block>)
    ensures ToRow(FromRowWith(r, children), r.blockOrder) == r
  {
  }
}
