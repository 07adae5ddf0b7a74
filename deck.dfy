/** The deck builder of the memory game: `selectPairs` in src/App.tsx.

    Both calls of `sort` in `selectPairs` use the comparator
    `() => Math.floor(Math.random() * 2 - 1)`, which answers -1 or 0 at random and is
    therefore not a consistent comparator. ECMA-262 (section 23.1.3.30, 2023 edition)
    then leaves the resulting order implementation-defined; it is still a permutation
    of the array. Each sort is modelled as `Permute(s, picks)`, where `picks` is an
    oracle describing which permutation the engine produced. */
module Deck {

  /** One entry of `currentPairs`: the image URL and whether its pair has been found. */
  datatype Card = Card(image: string, selected: bool)

  /** `slice(0, 10)`: at most this many images of the pool go into a deck. */
  const PAIR_LIMIT: nat := 10

  function Min(a: nat, b: nat): nat {
    if a <= b then a else b
  }

  /** The number of cards `selectPairs` deals from a pool of `n` images. */
  function DeckSize(n: nat): nat {
    2 * Min(PAIR_LIMIT, n)
  }

  // ---------------------------------------------------------------------------
  // Arbitrary reorderings

  /** `picks` describes one reordering of a sequence of length `n`: its k-th entry
      chooses, among the `n - k` elements not placed yet, the one put at position k. */
  predicate IsPicks(n: nat, picks: seq<nat>) {
    |picks| == n && forall k :: 0 <= k < n ==> picks[k] < n - k
  }

  /** `s` with its element at index `k` taken out. */
  function Without<T>(s: seq<T>, k: nat): (r: seq<T>)
    requires k < |s|
    ensures |r| == |s| - 1
    ensures multiset(r) + multiset{s[k]} == multiset(s)
  {
    assert s == s[..k] + [s[k]] + s[k + 1..];
    s[..k] + s[k + 1..]
  }

  /** The order an engine's `sort` may leave `s` in, as chosen by `picks`: the result
      is a permutation of `s`. */
  function Permute<T>(s: seq<T>, picks: seq<nat>): (r: seq<T>)
    requires IsPicks(|s|, picks)
    ensures |r| == |s|
    ensures multiset(r) == multiset(s)
    decreases |s|
  {
    if |s| == 0 then []
    else
      assert IsPicks(|s| - 1, picks[1..]) by {
        forall k | 0 <= k < |s| - 1 ensures picks[1..][k] < |s| - 1 - k {
          assert picks[1..][k] == picks[k + 1];
        }
      }
      [s[picks[0]]] + Permute(Without(s, picks[0]), picks[1..])
  }

  /** Some index at which `x` occurs in `s`. */
  function IndexOf<T(==)>(s: seq<T>, x: T): (k: nat)
    requires x in s
    ensures k < |s| && s[k] == x
  {
    if s[0] == x then 0 else 1 + IndexOf(s[1..], x)
  }

  lemma RemoveSame<T>(a: multiset<T>, b: multiset<T>, x: T)
    requires a + multiset{x} == b + multiset{x}
    ensures a == b
  {
    assert forall y :: a[y] == (a + multiset{x})[y] - multiset{x}[y];
  }

  /** The oracle is complete: every permutation `t` of `s` is the order some choice of
      `picks` produces, so `Permute` covers every order a `sort` can leave behind. */
  function PicksFor<T(==)>(s: seq<T>, t: seq<T>): (picks: seq<nat>)
    requires multiset(s) == multiset(t)
    ensures IsPicks(|s|, picks) && Permute(s, picks) == t
    decreases |s|
  {
    assert |s| == |multiset(s)| == |multiset(t)| == |t|;
    if |s| == 0 then []
    else
      assert t[0] in multiset(s);
      var k := IndexOf(s, t[0]);
      assert t == [t[0]] + t[1..];
      assert multiset(t) == multiset{t[0]} + multiset(t[1..]);
      assert multiset(Without(s, k)) + multiset{t[0]} == multiset(t[1..]) + multiset{t[0]};
      RemoveSame(multiset(Without(s, k)), multiset(t[1..]), t[0]);
      var rest := PicksFor(Without(s, k), t[1..]);
      var picks := [k] + rest;
      assert picks[1..] == rest;
      assert IsPicks(|s|, picks) by {
        forall j | 0 <= j < |s| ensures picks[j] < |s| - j {
          if j > 0 { assert picks[j] == rest[j - 1]; }
        }
      }
      picks
  }

  // ---------------------------------------------------------------------------
  // Building the deck

  /** `slice(0, n)`. */
  function Take<T>(s: seq<T>, n: nat): (r: seq<T>)
    ensures |r| == Min(n, |s|) && r == s[..|r|]
  {
    if |s| <= n then s else s[..n]
  }

  /** The images of a deck, in deck order. */
  function Images(deck: seq<Card>): (r: seq<string>)
    ensures |r| == |deck| && forall i :: 0 <= i < |deck| ==> r[i] == deck[i].image
  {
    seq(|deck|, i requires 0 <= i < |deck| => deck[i].image)
  }

  /** `pairs.map(image => ({image, selected: false}))`. */
  function FaceDown(images: seq<string>): (r: seq<Card>)
    ensures |r| == |images|
    ensures forall i :: 0 <= i < |r| ==> r[i] == Card(images[i], false)
  {
    seq(|images|, i requires 0 <= i < |images| => Card(images[i], false))
  }

  /** `deck` holds two copies of each of the first `min(10, |pool|)` images of `pool`,
      which is what `selectPairs` deals from a pool it has reordered. */
  predicate PairsOf(deck: seq<Card>, pool: seq<string>) {
    var chosen := pool[..Min(PAIR_LIMIT, |pool|)];
    multiset(Images(deck)) == multiset(chosen) + multiset(chosen)
  }

  /** What `selectPairs` leaves behind: the caller's pool, reordered in place by the
      first `sort`, and the deck it returns. */
  datatype Dealt = Dealt(pool: seq<string>, deck: seq<Card>)

  /** `selectPairs(cards)`: reorder the pool, keep its first ten images, put two copies
      of them in a second arbitrary order, and deal them face down. */
  function SelectPairs(cards: seq<string>, first: seq<nat>, second: seq<nat>): (r: Dealt)
    requires IsPicks(|cards|, first) && IsPicks(DeckSize(|cards|), second)
    ensures |r.pool| == |cards| && multiset(r.pool) == multiset(cards)
    ensures |r.deck| == DeckSize(|cards|)
    ensures forall i :: 0 <= i < |r.deck| ==> !r.deck[i].selected
    ensures PairsOf(r.deck, r.pool)
  {
    var sorted := Permute(cards, first);
    var selectedCards := Take(sorted, PAIR_LIMIT);
    var pairs := Permute(selectedCards + selectedCards, second);
    assert Images(FaceDown(pairs)) == pairs;
    Dealt(sorted, FaceDown(pairs))
  }

  /** A prefix of a sequence is a sub-multiset of it. */
  lemma PrefixSubMultiset<T>(s: seq<T>, n: nat)
    requires n <= |s|
    ensures multiset(s[..n]) <= multiset(s)
  {
    assert s == s[..n] + s[n..];
  }

  /** The images dealt are two copies of `min(10, |cards|)` images taken from the pool. */
  lemma DealtFromPool(cards: seq<string>, first: seq<nat>, second: seq<nat>)
    requires IsPicks(|cards|, first) && IsPicks(DeckSize(|cards|), second)
    ensures var r := SelectPairs(cards, first, second);
            var chosen := r.pool[..Min(PAIR_LIMIT, |cards|)];
            |chosen| == Min(PAIR_LIMIT, |cards|)
            && multiset(chosen) <= multiset(cards)
            && multiset(Images(r.deck)) == multiset(chosen) + multiset(chosen)
  {
    var r := SelectPairs(cards, first, second);
    PrefixSubMultiset(r.pool, Min(PAIR_LIMIT, |cards|));
  }

  /** No image occurs twice in `s`. */
  ghost predicate Distinct<T>(s: seq<T>) {
    forall i, j :: 0 <= i < j < |s| ==> s[i] != s[j]
  }

  lemma {:induction false} DistinctOccursOnce<T>(s: seq<T>, x: T)
    requires Distinct(s)
    ensures multiset(s)[x] <= 1
  {
    if |s| > 0 {
      assert s == [s[0]] + s[1..];
      assert Distinct(s[1..]) by {
        forall i, j | 0 <= i < j < |s| - 1 ensures s[1..][i] != s[1..][j] {
          assert s[1..][i] == s[i + 1] && s[1..][j] == s[j + 1];
        }
      }
      DistinctOccursOnce(s[1..], x);
      if s[0] == x {
        assert x !in s[1..] by {
          forall j | 0 <= j < |s| - 1 ensures s[1..][j] != x {
            assert s[1..][j] == s[j + 1];
          }
        }
      }
    }
  }

  /** When the fetched image URLs are distinct, every image in the deck occurs exactly
      twice in it. */
  lemma DistinctPoolGivesPairs(cards: seq<string>, first: seq<nat>, second: seq<nat>)
    requires IsPicks(|cards|, first) && IsPicks(DeckSize(|cards|), second)
    requires Distinct(cards)
    ensures var deck := SelectPairs(cards, first, second).deck;
            forall i :: 0 <= i < |deck| ==> multiset(Images(deck))[deck[i].image] == 2
  {
    var r := SelectPairs(cards, first, second);
    var deck := r.deck;
    var chosen := r.pool[..Min(PAIR_LIMIT, |cards|)];
    PrefixSubMultiset(r.pool, Min(PAIR_LIMIT, |cards|));
    forall i | 0 <= i < |deck| ensures multiset(Images(deck))[deck[i].image] == 2 {
      var x := deck[i].image;
      assert Images(deck)[i] == x;
      assert x in multiset(Images(deck));
      assert multiset(Images(deck))[x] == 2 * multiset(chosen)[x];
      DistinctOccursOnce(cards, x);
      assert multiset(chosen)[x] <= multiset(cards)[x];
    }
  }
}
