/** Physical memory as a store of 4 KiB frames. */
module Ram {
  import opened Machine
  import opened PagingTypes

  const ENTRIES: nat := 512

  type Byte = b: int | 0 <= b < 256
  type Table = t: seq<Pte> | |t| == ENTRIES witness seq(ENTRIES, _ => EMPTY)
  type PageBytes = s: seq<Byte> | |s| == PAGE_SIZE witness seq(PAGE_SIZE, _ => 0)

  function EmptyTable(): Table { seq(ENTRIES, _ => EMPTY) }
  function ZeroBytes(): PageBytes { seq(PAGE_SIZE, _ => 0) }

  /** A frame holds zeroes, page-table entries, or bytes. */
  datatype Page = Zero | Entries(entries: Table) | Bytes(bytes: PageBytes)

  /** Reading data bytes as page-table entries yields arbitrary present entries. */
  function Garbage(): Table
  {
    seq(ENTRIES, _ => Pte(Flags(true, true, true, true, true, true, true, true, true, true), 0))
  }

  function AsTable(p: Page): Table
  {
    match p
    case Zero => EmptyTable()
    case Entries(es) => es
    case Bytes(_) => Garbage()
  }

  function AsBytes(p: Page): PageBytes
  {
    match p
    case Zero => ZeroBytes()
    case Entries(_) => seq(PAGE_SIZE, _ => 255)
    case Bytes(bs) => bs
  }

  /** The machine's RAM, one page per frame number. */
  class PhysicalMemory {
    var frames: map<nat, Page>
  }

  /** `is_direct_mapped`: the 2 GiB window the kernel can reach by address arithmetic. */
  const DIRECT_MAP_LIMIT: int := 0x8000_0000
}
