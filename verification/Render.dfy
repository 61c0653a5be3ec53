/** What one refresh puts on the screen (`render_table` in c/src/render.c), up to the formatting of
    numbers and columns. */
module Render {
  import opened Basics
  import opened ProcessModel
  import opened ProcessLists
  import Utf8

  const NAME_COLUMN: nat := 30

  /** A table row. Unknown values are shown as a dash. */
  datatype Row = Row(pid: u32, name: string, mem: Option<u64>, threads: u32, cpu: Option<real>)

  /** A screen: the rows, and the counts in the footer. */
  datatype Frame = Frame(rows: seq<Row>, total: nat)

  function RowOf(info: ProcessInfo): Row {
    Row(info.pid, info.name[..Utf8.CCut(info.name, NAME_COLUMN)],
        if info.memKnown then Some(info.memBytes) else None,
        info.threads,
        if info.cpuKnown then Some(info.cpuPercent) else None)
  }

  /** The table of a list: its first `top` records, and its length. */
  function FrameOf(list: seq<ProcessInfo>, top: nat): Frame {
    Frame(Map(RowOf, list[..Min(|list|, top)]), |list|)
  }

  method RenderTable(list: ProcessList, top: nat, ghost heap: Heap) returns (frame: Frame)
    requires list.Valid() && list.OwnedIn(heap)
    ensures frame == FrameOf(list.Contents(), top)
  {
    var shown := if list.count < top then list.count else top;
    var rows := [];
    var i := 0;
    while i < shown
      invariant 0 <= i <= shown && rows == Map(RowOf, list.Contents()[..i])
    {
      var row := RenderRow(list.items[i]);
      assert list.Contents()[..i + 1] == list.Contents()[..i] + [list.Contents()[i]];
      rows := rows + [row];
      i := i + 1;
    }
    frame := Frame(rows, list.count);
  }

  /** One row; the name goes through a buffer of 256 bytes. */
  method RenderRow(item: ProcessInfo) returns (row: Row)
    ensures row == RowOf(item)
  {
    var name := new char[256];
    var used := Utf8.TruncateC(item.name, name, NAME_COLUMN);
    row := Row(item.pid, name[..used],
               if item.memKnown then Some(item.memBytes) else None,
               item.threads,
               if item.cpuKnown then Some(item.cpuPercent) else None);
  }
}
