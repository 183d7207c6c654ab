/** The card record of the memory game, and facts about decks of cards that
    the reducer and the deck builder both rely on. */
module Cards {

  /** One card on the board. `id` tells two cards apart, `name` is the key a
      pair shares, `image` is the sprite shown when the card is face up. */
  datatype Card = Card(id: string, name: string, image: string, matched: bool)

  /** No two positions of the deck carry the same id. */
  predicate IdsUnique(cards: seq<Card>) {
    forall i, j :: 0 <= i < j < |cards| ==> cards[i].id != cards[j].id
  }

  /** No card of the deck has been matched yet. */
  predicate NoneMatched(cards: seq<Card>) {
    forall k :: 0 <= k < |cards| ==> !cards[k].matched
  }

  /** The names of the cards, in deck order. */
  function Names(cards: seq<Card>): seq<string> {
    if cards == [] then [] else [cards[0].name] + Names(cards[1..])
  }

  /** How many cards of the deck are matched. */
  function CountMatched(cards: seq<Card>): (n: nat)
    ensures n <= |cards|
  {
    if cards == [] then 0
    else (if cards[0].matched then 1 else 0) + CountMatched(cards[1..])
  }

  /** The count of matched cards is zero exactly when no card is matched. */
  lemma {:induction false} CountMatchedZero(cards: seq<Card>)
    ensures CountMatched(cards) == 0 <==> NoneMatched(cards)
  {
    if cards != [] {
      CountMatchedZero(cards[1..]);
      assert forall k :: 1 <= k < |cards| ==> cards[k] == cards[1..][k - 1];
    }
  }

  /** `y` is `x` with possibly more cards matched: same length, and every
      card matched in `x` is matched at the same position of `y`. */
  predicate MatchedGrows(x: seq<Card>, y: seq<Card>) {
    |x| == |y| && forall k :: 0 <= k < |x| ==> x[k].matched ==> y[k].matched
  }

  /** Matching more cards never lowers the count. */
  lemma {:induction false} CountMatchedMonotone(x: seq<Card>, y: seq<Card>)
    requires MatchedGrows(x, y)
    ensures CountMatched(x) <= CountMatched(y)
  {
    if x != [] {
      CountMatchedMonotone(x[1..], y[1..]);
    }
  }

  /** Matching a card that was unmatched raises the count by at least one. */
  lemma {:induction false} CountMatchedGainsOne(x: seq<Card>, y: seq<Card>, i: nat)
    requires MatchedGrows(x, y) && i < |x| && !x[i].matched && y[i].matched
    ensures CountMatched(x) + 1 <= CountMatched(y)
  {
    if i == 0 {
      CountMatchedMonotone(x[1..], y[1..]);
    } else {
      CountMatchedGainsOne(x[1..], y[1..], i - 1);
    }
  }

  /** Matching two cards at distinct positions that were unmatched raises the
      count by at least two. */
  lemma {:induction false} CountMatchedGainsTwo(x: seq<Card>, y: seq<Card>, i: nat, j: nat)
    requires MatchedGrows(x, y) && i < j < |x|
    requires !x[i].matched && y[i].matched && !x[j].matched && y[j].matched
    ensures CountMatched(x) + 2 <= CountMatched(y)
  {
    if i == 0 {
      CountMatchedGainsOne(x[1..], y[1..], j - 1);
    } else {
      CountMatchedGainsTwo(x[1..], y[1..], i - 1, j - 1);
    }
  }

  /** In a deck with unique ids, a card of the deck is the only card with its id. */
  lemma UniqueIdPicksCard(cards: seq<Card>, c: Card, i: nat)
    requires IdsUnique(cards) && c in cards && i < |cards| && cards[i].id == c.id
    ensures cards[i] == c
  {
    var k :| 0 <= k < |cards| && cards[k] == c;
    assert i == k;
  }

  /** How many unmatched cards of the deck carry the id `id`. */
  function CountUnmatchedWithId(cards: seq<Card>, id: string): nat {
    if cards == [] then 0
    else (if !cards[0].matched && cards[0].id == id then 1 else 0) + CountUnmatchedWithId(cards[1..], id)
  }

  /** In a deck with unique ids, an unmatched card is the only unmatched card with its id. */
  lemma {:induction false} UnmatchedIdCountedOnce(cards: seq<Card>, c: Card)
    requires IdsUnique(cards) && c in cards && !c.matched
    ensures CountUnmatchedWithId(cards, c.id) == 1
  {
    if cards[0] == c {
      NoOtherWithId(cards[1..], c.id);
    } else {
      assert c in cards[1..];
      UnmatchedIdCountedOnce(cards[1..], c);
    }
  }

  /** A deck in which no card carries `id` counts none. */
  lemma {:induction false} NoOtherWithId(cards: seq<Card>, id: string)
    requires forall k :: 0 <= k < |cards| ==> cards[k].id != id
    ensures CountUnmatchedWithId(cards, id) == 0
  {
    if cards != [] {
      NoOtherWithId(cards[1..], id);
    }
  }

  /** A value found at two distinct positions occurs at least twice in the multiset. */
  lemma TwoPositionsCount(s: seq<Card>, i: nat, j: nat)
    requires i < j < |s| && s[i] == s[j]
    ensures multiset(s)[s[i]] >= 2
  {
    assert s == s[..i] + [s[i]] + s[i + 1..j] + [s[j]] + s[j + 1..];
  }

  /** A value that occurs at least twice in the multiset sits at two distinct positions. */
  lemma {:induction false} CountTwoPositions(s: seq<Card>, x: Card)
    requires multiset(s)[x] >= 2
    ensures exists i, j :: 0 <= i < j < |s| && s[i] == x && s[j] == x
  {
    assert s == [s[0]] + s[1..];
    if s[0] == x {
      assert x in multiset(s[1..]);
      var k :| 0 <= k < |s[1..]| && s[1..][k] == x;
      assert s[0] == x && s[k + 1] == x;
    } else {
      CountTwoPositions(s[1..], x);
      var i, j :| 0 <= i < j < |s[1..]| && s[1..][i] == x && s[1..][j] == x;
      assert s[i + 1] == x && s[j + 1] == x;
    }
  }

  /** Reordering a deck with no matched card leaves no matched card. */
  lemma PermutationKeepsNoneMatched(d: seq<Card>, e: seq<Card>)
    requires multiset(d) == multiset(e) && NoneMatched(e)
    ensures NoneMatched(d)
  {
    forall k | 0 <= k < |d|
      ensures !d[k].matched
    {
      assert d[k] in multiset(e);
    }
  }

  /** Reordering a deck keeps its ids unique. */
  lemma PermutationKeepsIdsUnique(d: seq<Card>, e: seq<Card>)
    requires multiset(d) == multiset(e) && IdsUnique(e)
    ensures IdsUnique(d)
  {
    forall i, j | 0 <= i < j < |d|
      ensures d[i].id != d[j].id
    {
      if d[i] == d[j] {
        TwoPositionsCount(d, i, j);
        CountTwoPositions(e, d[i]);
      } else {
        assert d[i] in multiset(e) && d[j] in multiset(e);
        var i' :| 0 <= i' < |e| && e[i'] == d[i];
        var j' :| 0 <= j' < |e| && e[j'] == d[j];
        assert i' != j';
      }
    }
  }

  /** Names commute with concatenation. */
  lemma NamesAppend(a: seq<Card>, b: seq<Card>)
    ensures Names(a + b) == Names(a) + Names(b)
  {
    if a == [] {
      assert a + b == b;
    } else {
      assert (a + b)[0] == a[0] && (a + b)[1..] == a[1..] + b;
      NamesAppend(a[1..], b);
    }
  }

  /** Removing position k from a sequence removes one occurrence of its value. */
  lemma RemoveAtMultiset(e: seq<Card>, k: nat)
    requires k < |e|
    ensures multiset(e[..k] + e[k + 1..]) == multiset(e) - multiset{e[k]}
  {
    assert e == e[..k] + [e[k]] + e[k + 1..];
  }

  /** Taking the card at position k out of a deck takes one occurrence of its
      name out of the names. */
  lemma NamesRemoveAt(e: seq<Card>, k: nat)
    requires k < |e|
    ensures multiset(Names(e)) == multiset(Names(e[..k] + e[k + 1..])) + multiset{e[k].name}
  {
    var pre, x, post := e[..k], e[k], e[k + 1..];
    assert e == pre + ([x] + post);
    NamesAppend(pre, [x] + post);
    assert ([x] + post)[1..] == post;
    assert Names([x] + post) == [x.name] + Names(post);
    NamesAppend(pre, post);
    var np, nq := Names(pre), Names(post);
    assert multiset(np + ([x.name] + nq)) == multiset(np) + multiset{x.name} + multiset(nq);
    assert multiset(np + nq) == multiset(np) + multiset(nq);
  }

  /** Two reorderings of each other stay so once the first's head is taken
      out of both. */
  lemma PermutationRemoveHead(d: seq<Card>, e: seq<Card>, k: nat)
    requires multiset(d) == multiset(e) && d != [] && k < |e| && e[k] == d[0]
    ensures multiset(d[1..]) == multiset(e[..k] + e[k + 1..])
  {
    RemoveAtMultiset(e, k);
    assert d == [d[0]] + d[1..];
    assert multiset(d[1..]) == multiset(d) - multiset{d[0]};
  }

  /** Reordering a deck keeps how often each name occurs. */
  lemma {:induction false} PermutationKeepsNames(d: seq<Card>, e: seq<Card>)
    requires multiset(d) == multiset(e)
    ensures multiset(Names(d)) == multiset(Names(e))
  {
    if d == [] {
      assert |e| == |multiset(e)| == 0;
    } else {
      assert d[0] in multiset(e);
      var k :| 0 <= k < |e| && e[k] == d[0];
      PermutationRemoveHead(d, e, k);
      PermutationKeepsNames(d[1..], e[..k] + e[k + 1..]);
      NamesRemoveAt(e, k);
      assert Names(d) == [d[0].name] + Names(d[1..]);
    }
  }
}
