/**
 * The plugin's event handlers, step by step: the measuring loop, the page
 * overwrite loop, and the three handlers that run them on an edited book,
 * on the slots of an opened container and on a moved item.
 */
module Handlers {
  import opened Policy
  import Utf8

  /** A book's metadata: its pages, which `SetPage` overwrites in place. */
  class BookMeta {
    var pages: seq<string>

    /** A copy of an item's pages (what `getItemMeta` hands out). */
    constructor (pages: seq<string>)
      ensures this.pages == pages
    {
      this.pages := pages;
    }

    /** Overwrites page number `page`, counted from 1. */
    method SetPage(page: int, text: string)
      requires 1 <= page <= |pages|
      modifies this
      ensures pages == old(pages)[page - 1 := text]
    {
      pages := pages[page - 1 := text];
    }
  }

  /**
   * Appends every page to a builder, in order, and returns the byte length
   * of the result.
   */
  method GetPayloadBytes(bookPages: seq<string>) returns (size: nat)
    ensures size == PayloadBytes(bookPages)
    ensures bookPages == [] ==> size == 0
  {
    var builder := "";
    for i := 0 to |bookPages|
      invariant builder == Concat(bookPages[..i])
    {
      assert bookPages[..i + 1][..i] == bookPages[..i];
      builder := builder + bookPages[i];
    }
    assert bookPages[..|bookPages|] == bookPages;
    size := |Utf8.Encode(builder)|;
  }

  /**
   * Calls `SetPage(i + 1, Placeholder)` for every i from 0 to the page count
   * minus 1: pages 1 .. n, each exactly once.
   */
  method OverwriteEveryPage(meta: BookMeta)
    modifies meta
    ensures |meta.pages| == |old(meta.pages)|
    ensures AllPlaceholder(meta.pages)
    ensures meta.pages == Neutralize(old(meta.pages))
  {
    var i := 0;
    while i < |meta.pages|
      invariant 0 <= i <= |meta.pages| == |old(meta.pages)|
      invariant forall k :: 0 <= k < i ==> meta.pages[k] == Placeholder
    {
      meta.SetPage(i + 1, Placeholder);
      i := i + 1;
    }
  }

  /**
   * The edit guard: a newly written book over the threshold has every page
   * overwritten; any other edit goes through untouched.
   */
  method OnBookWrite(newBookMeta: BookMeta)
    modifies newBookMeta
    ensures PayloadBytes(old(newBookMeta.pages)) <= Threshold ==> newBookMeta.pages == old(newBookMeta.pages)
    ensures PayloadBytes(old(newBookMeta.pages)) > Threshold ==>
      |newBookMeta.pages| == |old(newBookMeta.pages)| && AllPlaceholder(newBookMeta.pages)
    ensures newBookMeta.pages == Enforce(old(newBookMeta.pages))
  {
    var size := GetPayloadBytes(newBookMeta.pages);
    if size > Threshold {
      OverwriteEveryPage(newBookMeta);
    }
  }

  /**
   * The container sweep, as written: every book in the container has every
   * page overwritten, whatever its size; empty slots and other items are
   * skipped.
   */
  method OnContainerOpened(contents: array<Option<Item>>)
    modifies contents
    ensures forall k :: 0 <= k < contents.Length ==> contents[k] == RevertSlot(old(contents[k]))
  {
    for k := 0 to contents.Length
      invariant forall j :: 0 <= j < k ==> contents[j] == RevertSlot(old(contents[j]))
      invariant forall j :: k <= j < contents.Length ==> contents[j] == old(contents[j])
    {
      if contents[k].None? {
        continue;
      }
      var item := contents[k].value;
      if IsBook(item.kind) {
        var meta := new BookMeta(item.pages);
        OverwriteEveryPage(meta);
        contents[k] := Some(Item(item.kind, meta.pages));
      }
    }
  }

  /**
   * The transfer guard, as written: a moved book comes out with every page
   * overwritten, whatever its size; any other item is left alone.
   */
  method OnBookMove(item: Item) returns (moved: Item)
    ensures moved == RevertItem(item)
    ensures moved.kind == item.kind && |moved.pages| == |item.pages|
    ensures IsBook(item.kind) ==> AllPlaceholder(moved.pages)
    ensures !IsBook(item.kind) ==> moved == item
  {
    moved := item;
    if IsBook(item.kind) {
      var meta := new BookMeta(item.pages);
      OverwriteEveryPage(meta);
      moved := Item(item.kind, meta.pages);
    }
  }

  /** The container sweep with the edit guard's size check on each book. */
  method OnContainerOpenedChecked(contents: array<Option<Item>>)
    modifies contents
    ensures forall k :: 0 <= k < contents.Length ==> contents[k] == EnforceSlot(old(contents[k]))
  {
    for k := 0 to contents.Length
      invariant forall j :: 0 <= j < k ==> contents[j] == EnforceSlot(old(contents[j]))
      invariant forall j :: k <= j < contents.Length ==> contents[j] == old(contents[j])
    {
      if contents[k].None? {
        continue;
      }
      var item := contents[k].value;
      if IsBook(item.kind) {
        var moved := OnBookMoveChecked(item);
        contents[k] := Some(moved);
      }
    }
  }

  /** The transfer guard with the edit guard's size check. */
  method OnBookMoveChecked(item: Item) returns (moved: Item)
    ensures moved == EnforceItem(item)
    ensures !IsBook(item.kind) || PayloadBytes(item.pages) <= Threshold ==> moved == item
    ensures IsBook(item.kind) && PayloadBytes(item.pages) > Threshold ==>
      |moved.pages| == |item.pages| && AllPlaceholder(moved.pages)
  {
    moved := item;
    if IsBook(item.kind) {
      var meta := new BookMeta(item.pages);
      OnBookWrite(meta);
      moved := Item(item.kind, meta.pages);
    }
  }
}
