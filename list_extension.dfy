/** A model of MuffinDev.Core.ListExtension: the extension methods that read or change a list in
    place (AddOnce, IsInRange, Shuffle, ShuffleCrypto).

    The list the C# methods receive (an IList<T>) is a `List<T>` object whose `items` sequence the
    methods reassign. The two random sources are replaced by what they return: `Shuffle` takes the
    values `Random.Range` would have produced, `ShuffleCrypto` takes the stream of bytes the
    cryptographic provider would have written into its one-byte box. */
module ListExtension {

  /** A byte as written by the cryptographic random source. */
  newtype byte = x: int | 0 <= x < 256

  /** Byte.MaxValue, the numerator of ShuffleCrypto's rejection threshold. */
  const ByteMax: int := 255

  // ---------------------------------------------------------------------------------------------
  // IsInRange
  // ---------------------------------------------------------------------------------------------

  /** IsInRange as written: `_Index > 0 && _Index < _List.Count`. It admits exactly the valid
      positions of the list other than the first one. */
  function IsInRange<T>(s: seq<T>, index: int): (r: bool)
    ensures r <==> (0 <= index < |s| && index != 0)
  {
    index > 0 && index < |s|
  }

  /** The check the comment on IsInRange describes ("in this list's range"): every valid position,
      the first included. It differs from IsInRange at index 0 and nowhere else. */
  function IndexInRange<T>(s: seq<T>, index: int): (r: bool)
    ensures r <==> IsInRange(s, index) || (index == 0 && s != [])
  {
    0 <= index < |s|
  }

  /** On any non-empty list IsInRange refuses the first position, although the list has an
      element there. */
  lemma IsInRangeRefusesFirstIndex<T>(s: seq<T>)
    requires s != []
    ensures !IsInRange(s, 0) && IndexInRange(s, 0)
  {
  }

  // ---------------------------------------------------------------------------------------------
  // The swap both shuffles perform: value = l[k]; l[k] = l[n]; l[n] = value
  // ---------------------------------------------------------------------------------------------

  function Swap<T>(s: seq<T>, k: int, n: int): (r: seq<T>)
    requires IndexInRange(s, k) && IndexInRange(s, n)
    ensures |r| == |s| && multiset(r) == multiset(s)
    ensures r[k] == s[n] && r[n] == s[k]
    ensures forall m :: 0 <= m < |s| && m != k && m != n ==> r[m] == s[m]
  {
    s[k := s[n]][n := s[k]]
  }

  /** No two positions of `s` hold the same element. */
  predicate Distinct<T(==)>(s: seq<T>) {
    forall i, j :: 0 <= i < j < |s| ==> s[i] != s[j]
  }

  // ---------------------------------------------------------------------------------------------
  // Shuffle: Fisher-Yates driven by Random.Range(0, n + 1)
  // ---------------------------------------------------------------------------------------------

  /** `draws` is what Random.Range(0, n + 1) returns on each pass of Shuffle's loop when `n`
      positions are still to be shuffled: one value per pass, in [0, n - 1] on the first pass,
      [0, n - 2] on the second, and so on down to [0, 1]; no pass at all when n <= 1. */
  predicate DrawsFit(draws: seq<int>, n: nat) {
    |draws| == (if n <= 1 then 0 else n - 1) &&
    forall p :: 0 <= p < |draws| ==> 0 <= draws[p] <= n - 1 - p
  }

  /** The list Shuffle leaves behind when the first `n` positions of `s` are still to be shuffled
      and the random source answers `draws`: each pass swaps the drawn position with the last
      unshuffled one, which is then never touched again. */
  function ShuffleFrom<T>(s: seq<T>, n: nat, draws: seq<int>): (r: seq<T>)
    requires n <= |s| && DrawsFit(draws, n)
    ensures |r| == |s| && multiset(r) == multiset(s)
    ensures r[n..] == s[n..]
    decreases n
  {
    if n <= 1 then s
    else
      assert DrawsFit(draws[1..], n - 1);
      var t := Swap(s, draws[0], n - 1);
      ShuffleFrom(t, n - 1, draws[1..])
  }

  /** One pass of Shuffle: the first draw is swapped with position n - 1 and the rest of the draws
      fit the shorter unshuffled prefix. */
  lemma ShuffleStep<T>(s: seq<T>, n: nat, draws: seq<int>)
    requires n <= |s| && DrawsFit(draws, n) && n > 1
    ensures 0 <= draws[0] <= n - 1 && DrawsFit(draws[1..], n - 1)
    ensures ShuffleFrom(s, n, draws) == ShuffleFrom(Swap(s, draws[0], n - 1), n - 1, draws[1..])
  {
  }

  /** Prepending an answer in [0, n - 1] to draws that fit n - 1 gives draws that fit n. */
  lemma DrawsFitCons(k: int, rest: seq<int>, n: nat)
    requires n > 1 && 0 <= k <= n - 1 && DrawsFit(rest, n - 1)
    ensures DrawsFit([k] + rest, n) && ([k] + rest)[0] == k && ([k] + rest)[1..] == rest
  {
  }

  /** The element drawn on the first pass ends up in the last unshuffled position. */
  lemma ShufflePlacesFirstDraw<T>(s: seq<T>, n: nat, draws: seq<int>)
    requires n <= |s| && DrawsFit(draws, n) && n > 1
    ensures ShuffleFrom(s, n, draws)[n - 1] == s[draws[0]]
  {
  }

  /** Swapping two positions of a list without repeated elements keeps it without repeats. */
  lemma SwapKeepsDistinct<T>(s: seq<T>, k: int, n: int)
    requires IndexInRange(s, k) && IndexInRange(s, n) && Distinct(s)
    ensures Distinct(Swap(s, k, n))
  {
  }

  /** In a list without repeated elements, equal elements sit at the same position. */
  lemma DistinctAt<T>(s: seq<T>, i: int, j: int)
    requires Distinct(s) && 0 <= i < |s| && 0 <= j < |s| && s[i] == s[j]
    ensures i == j
  {
  }

  /** Two non-empty sequences with the same first element and the same rest are equal. */
  lemma SameHeadAndTail(a: seq<int>, b: seq<int>)
    requires a != [] && b != [] && a[0] == b[0] && a[1..] == b[1..]
    ensures a == b
  {
  }

  /** On a list without repeated elements, different answers of the random source give different
      shuffles: Shuffle never reaches the same arrangement twice, so the n * (n - 1) * ... * 2
      possible draw sequences lead to as many distinct arrangements. */
  lemma {:induction false} ShuffleInjective<T>(s: seq<T>, n: nat, d1: seq<int>, d2: seq<int>)
    requires n <= |s| && Distinct(s) && DrawsFit(d1, n) && DrawsFit(d2, n)
    requires ShuffleFrom(s, n, d1) == ShuffleFrom(s, n, d2)
    ensures d1 == d2
    decreases n
  {
    if n > 1 {
      ShufflePlacesFirstDraw(s, n, d1);
      ShufflePlacesFirstDraw(s, n, d2);
      DistinctAt(s, d1[0], d2[0]);
      ShuffleStep(s, n, d1);
      ShuffleStep(s, n, d2);
      var t := Swap(s, d1[0], n - 1);
      SwapKeepsDistinct(s, d1[0], n - 1);
      ShuffleInjective(t, n - 1, d1[1..], d2[1..]);
      SameHeadAndTail(d1, d2);
    }
  }

  // ---------------------------------------------------------------------------------------------
  // ShuffleCrypto: Fisher-Yates driven by rejection sampling on single random bytes
  // ---------------------------------------------------------------------------------------------

  /** The accept test of ShuffleCrypto's inner loop: box[0] < n * (Byte.MaxValue / n), with C#'s
      integer division (both operands are positive, so it agrees with Dafny's). The threshold
      never exceeds Byte.MaxValue, so the byte Byte.MaxValue itself is never accepted. */
  predicate Accepts(n: int, b: int): (r: bool)
    requires n > 0
    ensures r ==> b < ByteMax
  {
    b < n * (ByteMax / n)
  }

  /** What running ShuffleCrypto against a finite byte stream leads to: the loop either ends
      (`Finished`), or it is still waiting for an acceptable byte when the stream runs out
      (`Starved`); in both cases `list` is the list at that moment. */
  datatype Outcome<T> = Finished(list: seq<T>) | Starved(list: seq<T>)

  /** ShuffleCrypto's loop from the point where the first `n` positions of `s` are still to be
      shuffled and `bytes` is what the random source will write next. A byte that fails the accept
      test is dropped; an accepted byte `b` picks k = b % n, which is swapped with position n - 1. */
  function CryptoFrom<T>(s: seq<T>, n: nat, bytes: seq<byte>): (r: Outcome<T>)
    requires n <= |s|
    ensures |r.list| == |s| && multiset(r.list) == multiset(s)
    ensures r.list[n..] == s[n..]
    decreases |bytes|
  {
    if n <= 1 then Finished(s)
    else if bytes == [] then Starved(s)
    else if !Accepts(n, bytes[0] as int) then CryptoFrom(s, n, bytes[1..])
    else CryptoFrom(Swap(s, bytes[0] as int % n, n - 1), n - 1, bytes[1..])
  }

  /** The positions ShuffleCrypto picks from `bytes`, one per accepted byte, in order. */
  function CryptoDraws(n: nat, bytes: seq<byte>): seq<int>
    decreases |bytes|
  {
    if n <= 1 || bytes == [] then []
    else if !Accepts(n, bytes[0] as int) then CryptoDraws(n, bytes[1..])
    else [bytes[0] as int % n] + CryptoDraws(n - 1, bytes[1..])
  }

  /** When ShuffleCrypto finishes, it has done exactly what Shuffle does when Random.Range answers
      the positions picked by the accepted bytes; in particular each of them is a valid answer. */
  lemma {:induction false} CryptoIsFisherYates<T>(s: seq<T>, n: nat, bytes: seq<byte>)
    requires n <= |s| && CryptoFrom(s, n, bytes).Finished?
    ensures DrawsFit(CryptoDraws(n, bytes), n)
    ensures CryptoFrom(s, n, bytes).list == ShuffleFrom(s, n, CryptoDraws(n, bytes))
    decreases |bytes|
  {
    if n > 1 {
      var b := bytes[0] as int;
      if !Accepts(n, b) {
        CryptoIsFisherYates(s, n, bytes[1..]);
      } else {
        var t := Swap(s, b % n, n - 1);
        var rest := CryptoDraws(n - 1, bytes[1..]);
        assert CryptoFrom(s, n, bytes) == CryptoFrom(t, n - 1, bytes[1..]);
        CryptoIsFisherYates(t, n - 1, bytes[1..]);
        DrawsFitCons(b % n, rest, n);
        assert CryptoDraws(n, bytes) == [b % n] + rest;
        ShuffleStep(s, n, [b % n] + rest);
      }
    }
  }

  /** For n > Byte.MaxValue the threshold n * (Byte.MaxValue / n) is 0, so no byte is accepted. */
  lemma NoByteAcceptedAboveByteMax(n: int, b: byte)
    requires n > ByteMax
    ensures !Accepts(n, b as int)
  {
  }

  /** A list longer than Byte.MaxValue is never finished, whatever the random source produces:
      the C# loop spins for ever on its first pass. */
  lemma {:induction false} CryptoStarvesAboveByteMax<T>(s: seq<T>, n: nat, bytes: seq<byte>)
    requires ByteMax < n <= |s|
    ensures CryptoFrom(s, n, bytes) == Starved(s)
    decreases |bytes|
  {
    if bytes != [] {
      NoByteAcceptedAboveByteMax(n, bytes[0]);
      CryptoStarvesAboveByteMax(s, n, bytes[1..]);
    }
  }

  /** For 1 <= n <= Byte.MaxValue the threshold is at least 128, so every byte below 128 is
      accepted. */
  lemma LowBytesAccepted(n: int, b: int)
    requires 1 <= n <= ByteMax && 0 <= b < 128
    ensures Accepts(n, b)
  {
  }

  /** The number of bytes below 128 in `bytes`. */
  function LowCount(bytes: seq<byte>): nat
    decreases |bytes|
  {
    if bytes == [] then 0
    else (if bytes[0] < 128 then 1 else 0) + LowCount(bytes[1..])
  }

  /** On a list of at most Byte.MaxValue elements, a byte stream that holds Count - 1 bytes below
      128, anywhere among other bytes, makes ShuffleCrypto finish. */
  lemma {:induction false} CryptoFinishesOnLowBytes<T>(s: seq<T>, n: nat, bytes: seq<byte>)
    requires n <= |s| && n <= ByteMax && n - 1 <= LowCount(bytes)
    ensures CryptoFrom(s, n, bytes).Finished?
    decreases |bytes|
  {
    if n > 1 {
      assert bytes != [];
      var b := bytes[0] as int;
      if Accepts(n, b) {
        CryptoFinishesOnLowBytes(Swap(s, b % n, n - 1), n - 1, bytes[1..]);
      } else {
        if b < 128 {
          LowBytesAccepted(n, b);
        }
        CryptoFinishesOnLowBytes(s, n, bytes[1..]);
      }
    }
  }

  /** The bytes ShuffleCrypto accepts for `n` that pick position `k`. */
  function AcceptedFor(n: int, k: int): set<int>
    requires n > 0
  {
    set b | 0 <= b <= ByteMax && Accepts(n, b) && b % n == k
  }

  /** The numbers below n * q that leave remainder k. */
  function ResidueBelow(n: int, q: nat, k: int): set<int>
    requires n > 0
  {
    set b | 0 <= b < n * q && b % n == k
  }

  /** n * q + k leaves remainder k, and it is the only number of the block [n * q, n * q + n)
      that does. */
  lemma ModInBlock(n: int, q: nat, k: int, b: int)
    requires n > 0 && 0 <= k < n && n * q <= b < n * q + n
    ensures b % n == k <==> b == n * q + k
  {
    var d := b / n;
    assert n * d <= b < n * d + n;
    MulGap(n, d, q);
    MulGap(n, q, d);
  }

  /** Multiples of a positive n that are apart are at least n apart. */
  lemma MulGap(n: int, x: int, y: int)
    requires n > 0
    ensures x < y ==> n * x + n <= n * y
  {
    if x < y {
      MulAtLeast(n, y - x);
      assert n * y == n * x + n * (y - x);
    }
  }

  /** A positive multiple of a positive n is at least n. */
  lemma {:induction false} MulAtLeast(n: int, e: int)
    requires n > 0 && e >= 1
    ensures n * e >= n
    decreases e
  {
    if e > 1 {
      MulAtLeast(n, e - 1);
      assert n * e == n * (e - 1) + n;
    }
  }

  /** Exactly q numbers below n * q leave each remainder k. */
  lemma {:induction false} ResidueBelowCount(n: int, q: nat, k: int)
    requires n > 0 && 0 <= k < n
    ensures |ResidueBelow(n, q, k)| == q
    decreases q
  {
    if q > 0 {
      var p := q - 1;
      ResidueBelowCount(n, p, k);
      assert n * q == n * p + n;
      forall b | n * p <= b < n * q
        ensures b % n == k <==> b == n * p + k
      {
        ModInBlock(n, p, k, b);
      }
      assert ResidueBelow(n, q, k) == ResidueBelow(n, p, k) + {n * p + k};
      assert n * p + k !in ResidueBelow(n, p, k);
    }
  }

  /** The accept range [0, n * (Byte.MaxValue / n)) holds exactly Byte.MaxValue / n bytes for each
      position k in [0, n): every accepted byte picks a position of the list, and a uniform byte,
      once accepted, picks each position with the same probability. */
  lemma AcceptedCount(n: int, k: int)
    requires 1 <= n <= ByteMax && 0 <= k < n
    ensures |AcceptedFor(n, k)| == ByteMax / n
  {
    var q := ByteMax / n;
    assert ByteMax == n * q + ByteMax % n;
    assert AcceptedFor(n, k) == ResidueBelow(n, q, k);
    ResidueBelowCount(n, q, k);
  }

  // ---------------------------------------------------------------------------------------------
  // The list object and its mutating extension methods
  // ---------------------------------------------------------------------------------------------

  /** The IList<T> the extension methods are called on. */
  class List<T(==)> {
    var items: seq<T>

    constructor (items: seq<T>)
      ensures this.items == items
    {
      this.items := items;
    }

    /** Appends `item` unless the list already contains it; reports whether it appended. */
    method AddOnce(item: T) returns (added: bool)
      modifies this
      ensures added <==> item !in old(items)
      ensures added ==> items == old(items) + [item]
      ensures !added ==> items == old(items)
      ensures item in items
    {
      if item in items {
        return false;
      }
      items := items + [item];
      return true;
    }

    /** Shuffles the list in place; `draws` are the successive answers of Random.Range(0, n + 1). */
    method Shuffle(draws: seq<int>)
      requires DrawsFit(draws, |items|)
      modifies this
      ensures items == ShuffleFrom(old(items), |old(items)|, draws)
      ensures multiset(items) == multiset(old(items))
      ensures |old(items)| <= 1 ==> items == old(items)
    {
      var n: nat := |items|;
      var i := 0;
      while n > 1
        invariant n <= |items| == |old(items)|
        invariant i <= |draws| && DrawsFit(draws[i..], n)
        invariant ShuffleFrom(items, n, draws[i..]) == ShuffleFrom(old(items), |old(items)|, draws)
      {
        n := n - 1;
        var k := draws[i];
        i := i + 1;
        var value := items[k];
        items := items[k := items[n]];
        items := items[n := value];
      }
    }

    /** Shuffles the list in place by rejection sampling on the bytes `bytes`, which the
        cryptographic provider would write one at a time. Returns false when the stream runs out
        while the loop still waits for an acceptable byte; `items` is then the list at that
        moment. */
    method ShuffleCrypto(bytes: seq<byte>) returns (finished: bool)
      modifies this
      ensures CryptoFrom(old(items), |old(items)|, bytes)
           == if finished then Finished(items) else Starved(items)
      ensures multiset(items) == multiset(old(items))
      ensures finished ==> DrawsFit(CryptoDraws(|old(items)|, bytes), |old(items)|)
      ensures finished ==> items == ShuffleFrom(old(items), |old(items)|, CryptoDraws(|old(items)|, bytes))
      ensures |old(items)| > ByteMax ==> !finished && items == old(items)
    {
      ghost var start := items;
      ghost var goal := CryptoFrom(items, |items|, bytes);
      if |start| > ByteMax {
        CryptoStarvesAboveByteMax(start, |start|, bytes);
      }
      var n: nat := |items|;
      var i := 0;
      while n > 1
        invariant n <= |items| == |start| && i <= |bytes|
        invariant CryptoFrom(items, n, bytes[i..]) == goal
        decreases |bytes| - i
      {
        if i == |bytes| {
          return false;
        }
        var b := bytes[i];
        i := i + 1;
        while !(b as int < n * (ByteMax / n))
          invariant 1 <= i <= |bytes| && b == bytes[i - 1]
          invariant CryptoFrom(items, n, bytes[i - 1..]) == goal
          decreases |bytes| - i
        {
          assert bytes[i - 1..][1..] == bytes[i..];
          if i == |bytes| {
            return false;
          }
          b := bytes[i];
          i := i + 1;
        }
        assert bytes[i - 1..][1..] == bytes[i..];
        var k := b as int % n;
        n := n - 1;
        var value := items[k];
        items := items[k := items[n]];
        items := items[n := value];
      }
      finished := true;
      CryptoIsFisherYates(start, |start|, bytes);
    }
  }

  /** A second AddOnce with the same item returns false and leaves the list as the first left it. */
  method AddOnceTwice<T(==)>(l: List<T>, item: T) returns (first: bool, second: bool)
    modifies l
    ensures first <==> item !in old(l.items)
    ensures l.items == if first then old(l.items) + [item] else old(l.items)
    ensures !second
  {
    first := l.AddOnce(item);
    ghost var after := l.items;
    second := l.AddOnce(item);
    assert l.items == after;
  }
}
