/**
 * The book-size neutralisation policy of SaveStateDupePatch, with the
 * host's event objects taken away: how a book's payload is measured, when
 * it is too big, what it is overwritten with, and what each of the three
 * event handlers does to one item.
 */
module Policy {
  import Utf8

  /** Payloads strictly above this many bytes are neutralised by the edit guard. */
  const Threshold: nat := 28000

  /** The text written over every page of a neutralised book. */
  const Placeholder: string := "Previously saved book content was too big!"

  datatype Option<T> = None | Some(value: T)

  /** The item kinds the handlers tell apart: the two book kinds and everything else. */
  datatype Kind = BookAndQuill | WrittenBook | Other

  /** An item stack: its kind and, for the book kinds, the text of its pages. */
  datatype Item = Item(kind: Kind, pages: seq<string>)

  predicate IsBook(k: Kind) {
    k == BookAndQuill || k == WrittenBook
  }

  /** The pages appended to each other in order, with nothing between them. */
  function Concat(pages: seq<string>): string
  {
    if pages == [] then "" else Concat(pages[..|pages| - 1]) + pages[|pages| - 1]
  }

  /** The size of a payload: the byte length of the concatenated pages. */
  function PayloadBytes(pages: seq<string>): nat
  {
    |Utf8.Encode(Concat(pages))|
  }

  /** Every page is the placeholder. */
  predicate AllPlaceholder(pages: seq<string>) {
    forall i :: 0 <= i < |pages| ==> pages[i] == Placeholder
  }

  /** A book of the same page count in which every page is the placeholder. */
  function Neutralize(pages: seq<string>): seq<string>
  {
    seq(|pages|, _ => Placeholder)
  }

  /** The edit guard's decision: neutralise exactly when the payload is over the threshold. */
  function Enforce(pages: seq<string>): (r: seq<string>)
    ensures PayloadBytes(pages) <= Threshold ==> r == pages
    ensures PayloadBytes(pages) > Threshold ==> |r| == |pages| && AllPlaceholder(r)
  {
    if PayloadBytes(pages) > Threshold then Neutralize(pages) else pages
  }

  /**
   * What the container sweep and the transfer guard do to one item, as
   * written: every book is neutralised whatever its size; other items are
   * left as they are.
   */
  function RevertItem(item: Item): (r: Item)
    ensures r.kind == item.kind && |r.pages| == |item.pages|
    ensures IsBook(item.kind) ==> AllPlaceholder(r.pages)
    ensures !IsBook(item.kind) ==> r == item
  {
    if IsBook(item.kind) then Item(item.kind, Neutralize(item.pages)) else item
  }

  /** The container sweep on one slot: an empty slot stays empty. */
  function RevertSlot(slot: Option<Item>): (r: Option<Item>)
    ensures r.None? <==> slot.None?
    ensures slot.Some? ==> r.value == RevertItem(slot.value)
  {
    match slot
    case None => None
    case Some(item) => Some(RevertItem(item))
  }

  /**
   * What the sweep and the transfer guard evidently mean to do to one item
   * ("revert any overloaded books"): the edit guard's size check, applied
   * to books only.
   */
  function EnforceItem(item: Item): (r: Item)
    ensures r.kind == item.kind && |r.pages| == |item.pages|
    ensures !IsBook(item.kind) || PayloadBytes(item.pages) <= Threshold ==> r == item
    ensures IsBook(item.kind) && PayloadBytes(item.pages) > Threshold ==> AllPlaceholder(r.pages)
  {
    if IsBook(item.kind) then Item(item.kind, Enforce(item.pages)) else item
  }

  /** The size-checked sweep on one slot. */
  function EnforceSlot(slot: Option<Item>): (r: Option<Item>)
    ensures r.None? <==> slot.None?
    ensures slot.Some? ==> r.value == EnforceItem(slot.value)
  {
    match slot
    case None => None
    case Some(item) => Some(EnforceItem(item))
  }

  // ---------------------------------------------------------------------
  // Measurement

  /** Concatenation of page lists is concatenation of their texts. */
  lemma {:induction false} ConcatAppend(p: seq<string>, q: seq<string>)
    ensures Concat(p + q) == Concat(p) + Concat(q)
  {
    if q == [] {
      assert p + q == p;
    } else {
      var q' := q[..|q| - 1];
      assert (p + q)[..|p + q| - 1] == p + q';
      assert (p + q)[|p + q| - 1] == q[|q| - 1];
      ConcatAppend(p, q');
    }
  }

  /** The sum of the pages' sizes, each page measured on its own. */
  function SumOfPageBytes(pages: seq<string>): nat
  {
    if pages == [] then 0
    else SumOfPageBytes(pages[..|pages| - 1]) + |Utf8.Encode(pages[|pages| - 1])|
  }

  /**
   * Measuring the concatenation equals adding up the pages measured one by
   * one, because UTF-8 adds no bytes at a seam; an empty book measures 0.
   */
  lemma {:induction false} PayloadBytesIsSumOfPages(pages: seq<string>)
    ensures PayloadBytes(pages) == SumOfPageBytes(pages)
    ensures pages == [] ==> PayloadBytes(pages) == 0
  {
    if pages != [] {
      var init := pages[..|pages| - 1];
      Utf8.EncodeAppend(Concat(init), pages[|pages| - 1]);
      PayloadBytesIsSumOfPages(init);
    }
  }

  /** A payload takes at least one byte and at most four per character of its concatenation. */
  lemma PayloadBytesBounds(pages: seq<string>)
    ensures |Concat(pages)| <= PayloadBytes(pages) <= 4 * |Concat(pages)|
  {
    Utf8.EncodeLengthBounds(Concat(pages));
  }

  /**
   * Moving the split point between two adjacent pages does not change the
   * measured size: only the concatenation is measured.
   */
  lemma SplitPageKeepsSize(before: seq<string>, a: string, b: string, after: seq<string>)
    ensures PayloadBytes(before + [a + b] + after) == PayloadBytes(before + [a, b] + after)
  {
    ConcatAppend(before + [a + b], after);
    ConcatAppend(before, [a + b]);
    ConcatAppend(before + [a, b], after);
    ConcatAppend(before, [a, b]);
    assert [a, b][..1] == [a];
    assert Concat([a, b]) == a + b;
    assert Concat([a + b]) == a + b by {
      assert [a + b][..0] == [];
    }
  }

  // ---------------------------------------------------------------------
  // The placeholder and neutralisation

  /** The placeholder is 42 ASCII characters, so 42 bytes. */
  lemma PlaceholderBytes()
    ensures |Placeholder| == 42
    ensures |Utf8.Encode(Placeholder)| == 42
  {
    assert forall c | c in Placeholder :: c as int < 0x80;
    Utf8.EncodeAsciiLength(Placeholder);
  }

  /** A neutralised book measures 42 bytes per page. */
  lemma {:induction false} NeutralizedBytes(pages: seq<string>)
    ensures PayloadBytes(Neutralize(pages)) == 42 * |pages|
  {
    if pages != [] {
      var init := pages[..|pages| - 1];
      var n := Neutralize(pages);
      assert n[..|n| - 1] == Neutralize(init);
      NeutralizedBytes(init);
      Utf8.EncodeAppend(Concat(Neutralize(init)), Placeholder);
      PlaceholderBytes();
    }
  }

  /**
   * A neutralised book is within the threshold exactly when it has at most
   * 666 pages (42 * 666 = 27972, 42 * 667 = 28014).
   */
  lemma NeutralizedWithinThresholdIff(pages: seq<string>)
    ensures PayloadBytes(Neutralize(pages)) <= Threshold <==> |pages| <= 666
  {
    NeutralizedBytes(pages);
  }

  /** Overwriting with the placeholder twice gives the same pages as once. */
  lemma NeutralizeIdempotent(pages: seq<string>)
    ensures Neutralize(Neutralize(pages)) == Neutralize(pages)
    ensures AllPlaceholder(pages) <==> Neutralize(pages) == pages
  {
  }

  /** Enforcing the policy a second time changes nothing, whatever the page count. */
  lemma EnforceIdempotent(pages: seq<string>)
    ensures Enforce(Enforce(pages)) == Enforce(pages)
  {
  }

  /**
   * After the edit guard the payload is within the threshold exactly when it
   * already was, or the book has at most 666 pages: the placeholder alone
   * does not guarantee a small book.
   */
  lemma EnforceWithinThresholdIff(pages: seq<string>)
    ensures PayloadBytes(Enforce(pages)) <= Threshold
        <==> PayloadBytes(pages) <= Threshold || |pages| <= 666
  {
    NeutralizedWithinThresholdIff(pages);
  }

  /** A book that is already all placeholder is never changed by the edit guard. */
  lemma EnforceKeepsNeutralized(pages: seq<string>)
    requires AllPlaceholder(pages)
    ensures Enforce(pages) == pages
  {
  }

  // ---------------------------------------------------------------------
  // As written versus as documented

  /**
   * The as-written sweep and transfer agree with the size-checked policy
   * exactly on non-books, on oversized books, and on books whose pages are
   * already all placeholder (the empty book included).
   */
  lemma RevertAgreesWithEnforceIff(item: Item)
    ensures RevertItem(item) == EnforceItem(item)
        <==> !IsBook(item.kind) || PayloadBytes(item.pages) > Threshold || AllPlaceholder(item.pages)
  {
  }

  /**
   * A two-byte written book is far below the threshold, yet the as-written
   * sweep and transfer overwrite it; the size-checked policy leaves it alone.
   */
  lemma SmallBookIsRewritten()
    ensures PayloadBytes(["hi"]) == 2
    ensures RevertItem(Item(WrittenBook, ["hi"])) != Item(WrittenBook, ["hi"])
    ensures EnforceItem(Item(WrittenBook, ["hi"])) == Item(WrittenBook, ["hi"])
  {
    assert forall c | c in "hi" :: c as int < 0x80;
    Utf8.EncodeAsciiLength("hi");
    PayloadBytesIsSumOfPages(["hi"]);
    assert ["hi"][..0] == [];
    assert Neutralize(["hi"])[0] == Placeholder != "hi";
  }
}
