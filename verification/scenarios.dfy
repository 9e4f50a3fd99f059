/**
 * Concrete situations the policy is meant to handle, stated as lemmas over
 * the pure model of the handlers.
 */
module Scenarios {
  import opened Policy
  import Utf8
  import Handlers

  /** One page of 30000 ASCII characters is overwritten by the edit guard. */
  lemma OversizedSinglePage(page: string)
    requires |page| == 30000
    requires forall c | c in page :: c as int < 0x80
    ensures Enforce([page]) == [Placeholder]
  {
    Utf8.EncodeAsciiLength(page);
    PayloadBytesIsSumOfPages([page]);
    assert [page][..0] == [];
  }

  /** Three pages of 5000 bytes each (15000 in all) pass the edit guard untouched. */
  lemma ThreeMidSizedPages(a: string, b: string, c: string)
    requires |Utf8.Encode(a)| == |Utf8.Encode(b)| == |Utf8.Encode(c)| == 5000
    ensures PayloadBytes([a, b, c]) == 15000
    ensures Enforce([a, b, c]) == [a, b, c]
  {
    PayloadBytesIsSumOfPages([a, b, c]);
    assert [a, b, c][..2] == [a, b];
    assert [a, b][..1] == [a];
    assert [a][..0] == [];
    assert SumOfPageBytes([a]) == 5000;
    assert SumOfPageBytes([a, b]) == 10000;
  }

  /**
   * Opening a container holding an empty slot, an oversized written book and
   * a sword: only the book changes, under the sweep as written and under the
   * size-checked one.
   */
  method MixedContainer(page: string, sword: Item) returns (asWritten: seq<Option<Item>>, checked: seq<Option<Item>>)
    requires PayloadBytes([page]) > Threshold
    requires sword.kind == Other
    ensures asWritten == [None, Some(Item(WrittenBook, [Placeholder])), Some(sword)]
    ensures checked == asWritten
  {
    var contents := new Option<Item>[3](_ => None);
    contents[1] := Some(Item(WrittenBook, [page]));
    contents[2] := Some(sword);
    Handlers.OnContainerOpened(contents);
    asWritten := contents[..];

    contents[0], contents[1], contents[2] := None, Some(Item(WrittenBook, [page])), Some(sword);
    Handlers.OnContainerOpenedChecked(contents);
    checked := contents[..];
    assert Neutralize([page]) == [Placeholder];
  }

  /**
   * An oversized edit is neutralised; re-submitting the result (a book of at
   * most 666 pages) passes the guard without further change.
   */
  lemma ResubmittedPlaceholder(pages: seq<string>)
    requires PayloadBytes(pages) > Threshold
    requires |pages| <= 666
    ensures AllPlaceholder(Enforce(pages))
    ensures PayloadBytes(Enforce(pages)) <= Threshold
    ensures Enforce(Enforce(pages)) == Enforce(pages)
  {
    NeutralizedWithinThresholdIff(pages);
  }
}
