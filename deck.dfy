/** Building the deck from the fetched creature records: every record becomes
    two twin cards whose ids are the record's decimal id followed by "A" or "B". */
module Deck {
  import opened Cards

  /** What the creature-data service returns for one creature: its numeric
      id, its name and the address of its front sprite. */
  datatype Pokemon = Pokemon(id: nat, name: string, image: string)

  /** The outcome of fetching all records of one game. */
  datatype Fetch = Failed | Fetched(records: seq<Pokemon>)

  /** How many pairs one game asks for. */
  const TotalPairs: nat := 6

  /** The decimal digit for d. */
  function Digit(d: nat): char
    requires d < 10
  {
    ('0' as int + d) as char
  }

  /** The decimal spelling of a number, without leading zeros, as string
      concatenation renders an integer. */
  function DecimalString(n: nat): (r: string)
    ensures 1 <= |r|
    ensures n >= 10 ==> 2 <= |r|
    decreases n
  {
    if n < 10 then [Digit(n)] else DecimalString(n / 10) + [Digit(n % 10)]
  }

  /** Distinct numbers have distinct spellings. */
  lemma {:induction false} DecimalStringInjective(a: nat, b: nat)
    requires DecimalString(a) == DecimalString(b)
    ensures a == b
    decreases a
  {
    var sa, sb := DecimalString(a), DecimalString(b);
    if a < 10 && b < 10 {
      assert sa[0] == Digit(a) && sb[0] == Digit(b);
    } else if a >= 10 && b >= 10 {
      assert sa[|sa| - 1] == Digit(a % 10) && sb[|sb| - 1] == Digit(b % 10);
      assert sa[..|sa| - 1] == DecimalString(a / 10);
      assert sb[..|sb| - 1] == DecimalString(b / 10);
      DecimalStringInjective(a / 10, b / 10);
    }
  }

  /** The id of the card cut from creature `n` on side `side`. */
  function CardId(n: nat, side: char): string {
    DecimalString(n) + [side]
  }

  /** A card id determines both the creature it comes from and the side. */
  lemma CardIdInjective(a: nat, sideA: char, b: nat, sideB: char)
    requires CardId(a, sideA) == CardId(b, sideB)
    ensures a == b && sideA == sideB
  {
    var x, y := CardId(a, sideA), CardId(b, sideB);
    assert sideA == x[|x| - 1] && sideB == y[|y| - 1];
    assert x[..|x| - 1] == DecimalString(a) && y[..|y| - 1] == DecimalString(b);
    DecimalStringInjective(a, b);
  }

  /** The side letter of position k of a built deck. */
  function Side(k: nat): char {
    if k % 2 == 0 then 'A' else 'B'
  }

  /** The card for creature `p` on side `side`: face down, unmatched. */
  function CardOf(p: Pokemon, side: char): Card {
    Card(CardId(p.id, side), p.name, p.image, false)
  }

  /** The deck before shuffling: the records' twin pairs, in record order. */
  function BuildDeck(records: seq<Pokemon>): (deck: seq<Card>)
    ensures |deck| == 2 * |records|
    ensures forall i :: 0 <= i < |records| ==>
      deck[2 * i] == CardOf(records[i], 'A') && deck[2 * i + 1] == CardOf(records[i], 'B')
  {
    if records == [] then []
    else
      var rest := BuildDeck(records[1..]);
      assert forall i :: 1 <= i < |records| ==> records[1..][i - 1] == records[i];
      [CardOf(records[0], 'A'), CardOf(records[0], 'B')] + rest
  }

  /** Position k of a built deck holds the card of record k / 2, on side A at
      even positions and side B at odd ones. */
  lemma DeckAt(records: seq<Pokemon>, k: nat)
    requires k < 2 * |records|
    ensures BuildDeck(records)[k] == CardOf(records[k / 2], Side(k))
  {
    var i := k / 2;
    assert k == 2 * i || k == 2 * i + 1;
  }

  /** A freshly built deck has no matched card. */
  lemma BuiltDeckNoneMatched(records: seq<Pokemon>)
    ensures NoneMatched(BuildDeck(records))
  {
    forall k | 0 <= k < |BuildDeck(records)|
      ensures !BuildDeck(records)[k].matched
    {
      DeckAt(records, k);
    }
  }

  /** No two records carry the same creature id. */
  predicate DistinctIds(records: seq<Pokemon>) {
    forall i, j :: 0 <= i < j < |records| ==> records[i].id != records[j].id
  }

  /** The card ids of a built deck are unique exactly when the creature ids
      were distinct: a creature drawn twice yields two cards with each id. */
  lemma DeckIdsUniqueIff(records: seq<Pokemon>)
    ensures IdsUnique(BuildDeck(records)) <==> DistinctIds(records)
  {
    var deck := BuildDeck(records);
    if DistinctIds(records) {
      forall k, l | 0 <= k < l < |deck|
        ensures deck[k].id != deck[l].id
      {
        if deck[k].id == deck[l].id {
          DeckAt(records, k);
          DeckAt(records, l);
          CardIdInjective(records[k / 2].id, Side(k), records[l / 2].id, Side(l));
          assert false;
        }
      }
    }
    if IdsUnique(deck) {
      forall i, j | 0 <= i < j < |records|
        ensures records[i].id != records[j].id
      {
        assert deck[2 * i].id == CardId(records[i].id, 'A');
        assert deck[2 * j].id == CardId(records[j].id, 'A');
      }
    }
  }

  /** The two cards cut from one record are twins: same name and image,
      different ids. */
  lemma TwinsShareNameAndImage(records: seq<Pokemon>, i: nat)
    requires i < |records|
    ensures var deck := BuildDeck(records);
      && deck[2 * i].name == deck[2 * i + 1].name == records[i].name
      && deck[2 * i].image == deck[2 * i + 1].image == records[i].image
      && deck[2 * i].id != deck[2 * i + 1].id
  {
    var deck := BuildDeck(records);
    assert deck[2 * i] == CardOf(records[i], 'A');
    assert deck[2 * i + 1] == CardOf(records[i], 'B');
    if deck[2 * i].id == deck[2 * i + 1].id {
      CardIdInjective(records[i].id, 'A', records[i].id, 'B');
    }
  }

  /** The names of the records, in order. */
  function RecordNames(records: seq<Pokemon>): seq<string> {
    if records == [] then [] else [records[0].name] + RecordNames(records[1..])
  }

  /** Every name occurs in the deck twice as often as among the records. */
  lemma {:induction false} DeckDoublesNames(records: seq<Pokemon>)
    ensures forall name :: multiset(Names(BuildDeck(records)))[name] == 2 * multiset(RecordNames(records))[name]
  {
    if records != [] {
      var p, rest := records[0], records[1..];
      DeckDoublesNames(rest);
      var deck := BuildDeck(records);
      assert deck == [CardOf(p, 'A'), CardOf(p, 'B')] + BuildDeck(rest);
      NamesAppend([CardOf(p, 'A'), CardOf(p, 'B')], BuildDeck(rest));
      assert Names([CardOf(p, 'A'), CardOf(p, 'B')]) == [p.name, p.name];
      assert RecordNames(records) == [p.name] + RecordNames(rest);
    }
  }

  /** What `fetchPokemon` can hand back: the built deck in some shuffled order
      when every request succeeded, and the empty deck when any of them failed. */
  predicate IsFetchedDeck(f: Fetch, deck: seq<Card>) {
    match f
    case Failed => deck == []
    case Fetched(records) => multiset(deck) == multiset(BuildDeck(records))
  }

  /** In any order, the built deck holds each name twice per record carrying it. */
  lemma ShuffledNamesDoubled(records: seq<Pokemon>, deck: seq<Card>)
    requires multiset(deck) == multiset(BuildDeck(records))
    ensures forall name :: multiset(Names(deck))[name] == 2 * multiset(RecordNames(records))[name]
  {
    PermutationKeepsNames(deck, BuildDeck(records));
    DeckDoublesNames(records);
  }

  /** In any order, the built deck has unique ids exactly when the creature ids were distinct. */
  lemma ShuffledIdsUniqueIff(records: seq<Pokemon>, deck: seq<Card>)
    requires multiset(deck) == multiset(BuildDeck(records))
    ensures IdsUnique(deck) <==> DistinctIds(records)
  {
    var built := BuildDeck(records);
    DeckIdsUniqueIff(records);
    if IdsUnique(built) {
      PermutationKeepsIdsUnique(deck, built);
    }
    if IdsUnique(deck) {
      PermutationKeepsIdsUnique(built, deck);
    }
  }

  /** Whatever the shuffle, a fetched deck has two cards per record, none of
      them matched, each name twice per record carrying it (so every name an
      even number of times), and unique ids exactly when the creature ids were
      distinct. */
  lemma FetchedDeckIsPaired(f: Fetch, deck: seq<Card>)
    requires IsFetchedDeck(f, deck)
    ensures |deck| == (if f.Fetched? then 2 * |f.records| else 0)
    ensures NoneMatched(deck)
    ensures f.Fetched? ==> forall name :: multiset(Names(deck))[name] == 2 * multiset(RecordNames(f.records))[name]
    ensures f.Fetched? ==> (IdsUnique(deck) <==> DistinctIds(f.records))
  {
    if f.Fetched? {
      var built := BuildDeck(f.records);
      assert |deck| == |multiset(deck)| == |multiset(built)| == |built|;
      BuiltDeckNoneMatched(f.records);
      PermutationKeepsNoneMatched(deck, built);
      ShuffledNamesDoubled(f.records, deck);
      ShuffledIdsUniqueIff(f.records, deck);
    }
  }

  /** A successful fetch of one game's records yields twelve cards. */
  lemma FullFetchHasTwelveCards(records: seq<Pokemon>, deck: seq<Card>)
    requires |records| == TotalPairs && IsFetchedDeck(Fetched(records), deck)
    ensures |deck| == 12
  {
    FetchedDeckIsPaired(Fetched(records), deck);
  }
}
