/**
 The order of preference in which allocate chooses a superblock, for any state words: room in the
 wanted size, then an empty superblock, then room in larger blocks, each the first from where the search begins.
 */
module PoolChoice {
  import opened Powers
  import opened PoolGeometry

  /**
   How well a superblock suits a request: 3 for room in the wanted size, 2 for an empty superblock of
   another size, 1 for room in larger blocks, 0 for none of these.
   */
  function Suits(word: nat, want: nat): nat {
    var lg2, used := HeaderLg2(word), Used(word);
    if lg2 == want then if used < Pow2(want) then 3 else 0
    else if used == 0 then 2
    else if lg2 < want && used < Pow2(lg2) then 1
    else 0
  }

  /** No superblock with one of these state words can serve. */
  ghost predicate NoneServes(words: seq<nat>, want: nat) {
    forall x :: 0 <= x < |words| ==> !CanServe(words[x], want)
  }

  /** No superblock with one of these state words has the wanted size with room, or is empty. */
  ghost predicate NoneFits(words: seq<nat>, want: nat) {
    forall x :: 0 <= x < |words| ==> !CanServeExactly(words[x], want)
  }

  /** x suits best, and comes before every other that suits as well in the order that starts at begin. */
  ghost predicate BestFrom(words: seq<nat>, want: nat, begin: nat, x: nat) {
    && x < |words| && Suits(words[x], want) > 0
    && forall y: nat :: y < |words| ==>
         Suits(words[y], want) < Suits(words[x], want)
         || (Suits(words[y], want) == Suits(words[x], want)
             && Position(x, begin, |words|) <= Position(y, begin, |words|))
  }

  /** The superblock found becomes the hint: it was empty, or has room for another block of its size. */
  predicate PostsHint(word: nat, want: nat) {
    Suits(word, want) == 2 || (Suits(word, want) == 3 && Used(word) + 1 < Pow2(want))
  }

  /** The two preferences that callers care about, from how well a superblock suits. */
  lemma SuitsMeans(word: nat, want: nat)
    ensures Suits(word, want) > 0 <==> CanServe(word, want)
    ensures Suits(word, want) > 1 <==> CanServeExactly(word, want)
    ensures Suits(word, want) == 3 <==> HeaderLg2(word) == want && Used(word) < Pow2(want)
    ensures Suits(word, want) == 2 ==> HeaderLg2(word) != want && Used(word) == 0
    ensures Suits(word, want) == 1 ==> HeaderLg2(word) < want && Used(word) < Pow2(HeaderLg2(word))
    ensures Suits(word, want) <= 3
  {}

  lemma BestServes(words: seq<nat>, want: nat, begin: nat, x: nat)
    requires BestFrom(words, want, begin, x)
    ensures !NoneServes(words, want) && x < |words| && 1 <= Suits(words[x], want) <= 3
    ensures Suits(words[x], want) == 1 ==> NoneFits(words, want)
  {
    hide Suits, CanServe, CanServeExactly;
    SuitsMeans(words[x], want);
    forall y: nat | y < |words| ensures Suits(words[y], want) > 1 <==> CanServeExactly(words[y], want) {
      SuitsMeans(words[y], want);
    }
  }

  lemma OneServes(words: seq<nat>, want: nat, x: nat)
    requires x < |words| && Suits(words[x], want) > 0
    ensures !NoneServes(words, want)
  {}

  /** How well the superblock just read suits, by the branches of the search. */
  lemma SuitsIs(word: nat, want: nat)
    ensures Suits(word, want) <= 3
    ensures HeaderLg2(word) == want ==> Suits(word, want) == if Used(word) < Pow2(want) then 3 else 0
    ensures HeaderLg2(word) != want && Used(word) == 0 ==> Suits(word, want) == 2
    ensures HeaderLg2(word) != want && Used(word) != 0 ==>
      Suits(word, want) == if HeaderLg2(word) < want && Used(word) < Pow2(HeaderLg2(word)) then 1 else 0
  {}

  // ---------------------------------------------------------------- one pass over the superblocks

  /** Going on from the id that i superblocks lead to visits that one. */
  lemma VisitedNext(begin: nat, i: nat, count: nat, id: nat)
    requires begin < count && i < count && id == if begin + i < count then begin + i else begin + i - count
    ensures Position(id, begin, count) == i
    ensures forall x: nat :: x < count ==> (Visited(x, begin, i + 1, count) <==> Visited(x, begin, i, count) || x == id)
  {
    forall x: nat | x < count ensures Visited(x, begin, i + 1, count) <==> Visited(x, begin, i, count) || x == id {
      if begin <= x {
        assert x == id <==> x - begin == i;
      } else {
        assert x == id <==> x - begin + count == i;
      }
    }
  }

  /** No superblock that suits as well comes before x. */
  ghost predicate FirstToSuit(words: seq<nat>, want: nat, begin: nat, x: nat)
    requires x < |words|
  {
    forall y: nat :: y < |words| && Visited(y, begin, Position(x, begin, |words|), |words|) ==>
      Suits(words[y], want) < Suits(words[x], want)
  }

  /** None of the first i superblocks suits as well as that. */
  ghost predicate AllBelow(words: seq<nat>, want: nat, begin: nat, i: nat, suit: nat) {
    forall x: nat :: x < |words| && Visited(x, begin, i, |words|) ==> Suits(words[x], want) < suit
  }

  /** What the search knows after i superblocks, having found none of the wanted size with room. */
  ghost predicate SearchState(words: seq<nat>, want: nat, begin: nat, i: nat, empty: int, large: int, largeLg2: nat) {
    && begin < |words| && i <= |words| && -1 <= empty < |words| && -1 <= large < |words|
    && AllBelow(words, want, begin, i, if empty < 0 then if large < 0 then 1 else 2 else 3)
    && (0 <= empty ==> Suits(words[empty], want) == 2 && FirstToSuit(words, want, begin, empty))
    && (0 <= large ==> Suits(words[large], want) == 1 && largeLg2 == HeaderLg2(words[large])
                       && FirstToSuit(words, want, begin, large))
  }

  lemma SearchStarts(words: seq<nat>, want: nat, begin: nat)
    requires begin < |words|
    ensures SearchState(words, want, begin, 0, -1, -1, 0)
  {}

  /** One superblock further: it ends the search, or is kept if it suits better than those before it. */
  lemma SearchReads(words: seq<nat>, want: nat, begin: nat, i: nat, id: nat, empty: int, large: int, largeLg2: nat)
    requires SearchState(words, want, begin, i, empty, large, largeLg2) && i < |words|
    requires id == if begin + i < |words| then begin + i else begin + i - |words|
    ensures Suits(words[id], want) == 3 ==> BestFrom(words, want, begin, id)
    ensures Suits(words[id], want) != 3 ==>
      var empty' := if Suits(words[id], want) == 2 && empty == -1 then id else empty;
      var takes := Suits(words[id], want) == 1 && empty == -1 && large == -1;
      SearchState(words, want, begin, i + 1, empty', if takes then id else large,
                  if takes then HeaderLg2(words[id]) else largeLg2)
  {
    hide Suits, Visited, Position;
    VisitedNext(begin, i, |words|, id);
    SuitsIs(words[id], want);
    if Suits(words[id], want) == 3 {
      BestOfAll(words, want, begin, id, 3);
    } else if Suits(words[id], want) == 2 && empty == -1 {
      assert FirstToSuit(words, want, begin, id);
    } else if Suits(words[id], want) == 1 && empty == -1 && large == -1 {
      assert FirstToSuit(words, want, begin, id);
    }
  }

  /** The decision after the last superblock. */
  lemma SearchDone(words: seq<nat>, want: nat, begin: nat, empty: int, large: int, largeLg2: nat)
    requires SearchState(words, want, begin, |words|, empty, large, largeLg2)
    ensures 0 <= empty ==> BestFrom(words, want, begin, empty) && Suits(words[empty], want) == 2
    ensures empty < 0 <= large ==>
      && BestFrom(words, want, begin, large) && Suits(words[large], want) == 1 && largeLg2 == HeaderLg2(words[large])
    ensures empty < 0 && large < 0 ==> NoneServes(words, want)
  {
    hide Suits, CanServe;
    forall x: nat | x < |words| ensures Visited(x, begin, |words|, |words|) {}
    if 0 <= empty {
      BestOfAll(words, want, begin, empty, 2);
    } else if 0 <= large {
      BestOfAll(words, want, begin, large, 1);
    } else {
      forall x: nat | x < |words| ensures !CanServe(words[x], want) { SuitsMeans(words[x], want); }
    }
  }

  lemma BestOfAll(words: seq<nat>, want: nat, begin: nat, x: nat, suit: nat)
    requires x < |words| && suit == Suits(words[x], want) && suit > 0 && FirstToSuit(words, want, begin, x)
    requires begin < |words| && (suit == 3 || AllBelow(words, want, begin, |words|, suit + 1))
    ensures BestFrom(words, want, begin, x)
  {
    hide Suits, CanServe, CanServeExactly;
    forall y: nat | y < |words|
      ensures Suits(words[y], want) <= suit
      ensures !Visited(y, begin, Position(x, begin, |words|), |words|) ==>
                Position(x, begin, |words|) <= Position(y, begin, |words|)
    {
      SuitsMeans(words[y], want);
    }
  }
}
