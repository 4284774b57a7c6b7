/** The ring buffer of misc/averager.go: `Values` of fixed length is filled
    slot by slot and, once full, overwritten from slot 0 again. The report
    the source prints when it wraps around is not part of this model; the
    state is modelled as an immutable value and `Add` returns the next one. */
module Averaging {

  import opened Arith

  datatype Averager = Averager(name: string, values: seq<real>, insIndex: nat) {

    /** What every reachable state satisfies: the insertion index is at most
        the number of slots. */
    predicate Valid() {
      insIndex <= |values|
    }

    /** The slot the next `Add` writes: the insertion index, or 0 when the
        buffer has just been filled. */
    function NextSlot(): nat
      requires Valid()
    {
      if insIndex == |values| then 0 else insIndex
    }
  }

  /** `NewAverager`: `len` zero slots and insertion index 0. The source's
      `make` rejects a negative length, so `len` is a `nat` here. */
  function NewAverager(name: string, len: nat): (a: Averager)
    ensures a.Valid() && a.name == name
    ensures |a.values| == len && a.insIndex == 0
    ensures forall i | 0 <= i < len :: a.values[i] == 0.0
  {
    Averager(name, seq(len, _ => 0.0), 0)
  }

  /** `Add`: wrap the insertion index to 0 when the buffer is full, store the
      value there and advance the index. With no slots at all the source
      writes `Values[0]` out of range, hence the precondition. */
  function Add(a: Averager, val: real): (r: Averager)
    requires a.Valid() && |a.values| >= 1
    ensures r.Valid() && r.name == a.name && |r.values| == |a.values|
    ensures 1 <= r.insIndex
    ensures r.values[r.insIndex - 1] == val
    ensures forall i | 0 <= i < |a.values| && i != r.insIndex - 1 :: r.values[i] == a.values[i]
    ensures a.insIndex < |a.values| ==> r.insIndex == a.insIndex + 1
    ensures a.insIndex == |a.values| ==> r.insIndex == 1
  {
    var at := a.NextSlot();
    a.(values := a.values[at := val], insIndex := at + 1)
  }

  /** The state after adding `vals` in order. */
  function AddAll(a: Averager, vals: seq<real>): (r: Averager)
    requires a.Valid() && |a.values| >= 1
    ensures r.Valid() && |r.values| == |a.values|
    decreases |vals|
  {
    if |vals| == 0 then a else Add(AddAll(a, vals[..|vals| - 1]), vals[|vals| - 1])
  }

  /** The slot after slot `(n - 1) % len` is `n % len`, wrapping to 0. */
  lemma ModStep(n: int, len: int)
    requires len >= 1 && n >= 1
    ensures n % len == if (n - 1) % len + 1 == len then 0 else (n - 1) % len + 1
  {
    var q, r := (n - 1) / len, (n - 1) % len;
    if r + 1 == len {
      DivModUnique(n, q + 1, 0, len);
    } else {
      DivModUnique(n, q, r + 1, len);
    }
  }

  /** Two indices less than `len` apart fall into different slots. */
  lemma ModDistinct(m: int, n: int, len: int)
    requires len >= 1 && 0 <= m < n < m + len
    ensures m % len != n % len
  {
    var q, r := m / len, m % len;
    if r + (n - m) < len {
      DivModUnique(n, q, r + (n - m), len);
    } else {
      DivModUnique(n, q + 1, r + (n - m) - len, len);
    }
  }

  /** Starting from a new averager with `len` slots, after `n >= 1` values
      the insertion index is `(n - 1) % len + 1`, and the last `len` values
      added sit in the slots their position selects: value `m` in slot
      `m % len`. */
  lemma {:induction false} RingBuffer(name: string, len: nat, vals: seq<real>)
    requires len >= 1
    ensures var r := AddAll(NewAverager(name, len), vals);
      && (|vals| == 0 ==> r.insIndex == 0)
      && (|vals| >= 1 ==> r.insIndex == (|vals| - 1) % len + 1)
      && forall m | 0 <= m < |vals| && |vals| - len <= m :: r.values[m % len] == vals[m]
    decreases |vals|
  {
    if |vals| > 0 {
      var n := |vals|;
      var init := vals[..n - 1];
      RingBuffer(name, len, init);
      var prev := AddAll(NewAverager(name, len), init);
      assert prev.NextSlot() == (n - 1) % len by {
        if n - 1 >= 1 {
          ModStep(n - 1, len);
        }
      }
      var r := Add(prev, vals[n - 1]);
      assert r == AddAll(NewAverager(name, len), vals);
      forall m | 0 <= m < n && n - len <= m ensures r.values[m % len] == vals[m] {
        if m < n - 1 {
          assert init[m] == vals[m];
          ModDistinct(m, n - 1, len);
        }
      }
    }
  }

  /** Filling a new averager with exactly `len` values stores them in
      order. */
  lemma FillsInOrder(name: string, vals: seq<real>)
    requires |vals| >= 1
    ensures AddAll(NewAverager(name, |vals|), vals).values == vals
  {
    var len := |vals|;
    RingBuffer(name, len, vals);
    var r := AddAll(NewAverager(name, len), vals);
    forall m | 0 <= m < len ensures r.values[m] == vals[m] {
      DivModUnique(m, 0, m, len);
    }
  }
}
