/**
 * The flashcard navigator: a cursor over the cards that wraps around at both
 * ends, and a flag saying whether the current card shows its back.
 */
module FlashcardExercise {
  import Catalog

  /**
   * `(i + 1) % n`, the Next button: one card on, from the last card back to
   * the first. The operands are never negative, so JavaScript's `%` and
   * Dafny's agree.
   */
  function NextIndex(i: int, n: int): (j: int)
    requires 0 <= i < n
    ensures 0 <= j < n
    ensures j == if i == n - 1 then 0 else i + 1
  {
    (i + 1) % n
  }

  /** `(i - 1 + n) % n`, the Prev button: one card back, from the first card to the last. */
  function PrevIndex(i: int, n: int): (j: int)
    requires 0 <= i < n
    ensures 0 <= j < n
    ensures j == if i == 0 then n - 1 else i - 1
  {
    (i - 1 + n) % n
  }

  /** Prev undoes Next and Next undoes Prev. */
  lemma NextPrevInverse(i: int, n: int)
    requires 0 <= i < n
    ensures PrevIndex(NextIndex(i, n), n) == i
    ensures NextIndex(PrevIndex(i, n), n) == i
  {
  }

  /** The index after pressing Next `k` times. */
  function Advance(i: int, k: nat, n: int): (j: int)
    requires 0 <= i < n
    ensures 0 <= j < n
  {
    if k == 0 then i else NextIndex(Advance(i, k - 1, n), n)
  }

  /** Before the end of the deck is reached, pressing Next `k` times moves `k` cards on. */
  lemma {:induction false} AdvanceNoWrap(i: int, k: nat, n: int)
    requires 0 <= i && i + k < n
    ensures Advance(i, k, n) == i + k
  {
    if k > 0 {
      AdvanceNoWrap(i, k - 1, n);
    }
  }

  /** Pressing Next `a` times and then `b` times is pressing it `a + b` times. */
  lemma {:induction false} AdvanceCompose(i: int, a: nat, b: nat, n: int)
    requires 0 <= i < n
    ensures Advance(i, a + b, n) == Advance(Advance(i, a, n), b, n)
  {
    if b > 0 {
      AdvanceCompose(i, a, b - 1, n);
    }
  }

  /** Pressing Next once per card comes back to the starting card. */
  lemma FullCycle(i: int, n: int)
    requires 0 <= i < n
    ensures Advance(i, n as nat, n) == i
  {
    var toEnd: nat := n - 1 - i;
    AdvanceNoWrap(i, toEnd, n);
    assert Advance(i, toEnd + 1, n) == 0;
    AdvanceCompose(i, toEnd + 1, i as nat, n);
    AdvanceNoWrap(0, i as nat, n);
  }

  /** On the five-card deck: Prev from the first card shows the fifth, five Nexts from the first come back to it. */
  lemma FiveCardDeck()
    ensures |Catalog.Flashcards| == 5
    ensures PrevIndex(0, |Catalog.Flashcards|) == 4
    ensures Advance(0, 5, |Catalog.Flashcards|) == 0
  {
    FullCycle(0, 5);
  }

  // ---------- The flashcard component's state ----------

  class Flashcards {
    var index: int
    var flipped: bool

    /** The cursor always names a card, so the card shown always exists. */
    ghost predicate Valid()
      reads this
    {
      0 <= index < |Catalog.Flashcards|
    }

    constructor ()
      ensures Valid()
      ensures index == 0 && !flipped
    {
      index := 0;
      flipped := false;
    }

    /** The Next button: the next card, front up. */
    method Next()
      requires Valid()
      modifies this
      ensures Valid()
      ensures index == NextIndex(old(index), |Catalog.Flashcards|) && !flipped
    {
      flipped := false;
      index := (index + 1) % |Catalog.Flashcards|;
    }

    /** The Prev button: the previous card, front up. */
    method Prev()
      requires Valid()
      modifies this
      ensures Valid()
      ensures index == PrevIndex(old(index), |Catalog.Flashcards|) && !flipped
    {
      flipped := false;
      index := (index - 1 + |Catalog.Flashcards|) % |Catalog.Flashcards|;
    }

    /** Tapping the card turns it over and stays on the same card. */
    method Flip()
      requires Valid()
      modifies this
      ensures Valid()
      ensures flipped == !old(flipped) && index == old(index)
    {
      flipped := !flipped;
    }
  }

  /** Turning a card over twice leaves the navigator as it was. */
  method FlipTwice(deck: Flashcards)
    requires deck.Valid()
    modifies deck
    ensures deck.Valid()
    ensures deck.index == old(deck.index) && deck.flipped == old(deck.flipped)
  {
    deck.Flip();
    deck.Flip();
  }

  /** Next followed by Prev comes back to the same card, front up. */
  method NextThenPrev(deck: Flashcards)
    requires deck.Valid()
    modifies deck
    ensures deck.Valid()
    ensures deck.index == old(deck.index) && !deck.flipped
  {
    deck.Next();
    deck.Prev();
    NextPrevInverse(old(deck.index), |Catalog.Flashcards|);
  }
}
