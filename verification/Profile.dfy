/** Receiver-type rows of a virtual call profile, as `type_profile_helper` and `emit_profile_call` update them. */
module Profile {
  import opened Words
  import opened FirstSeen

  /** The receivers that get a row: the first n distinct ones, in order of first call. */
  function Rows(calls: seq<nat>, n: nat): seq<nat> {
    if |Firsts(calls)| <= n then Firsts(calls) else Firsts(calls)[..n]
  }

  /** Row i: a receiver with its exact number of calls as a 64-bit word, or empty. */
  ghost predicate RowOk(calls: seq<nat>, rs: seq<nat>, cs: seq<nat>, i: nat)
    requires i < |rs| == |cs|
  {
    var rows := Rows(calls, |rs|);
    if i < |rows| then rs[i] == rows[i] && cs[i] == Occurs(calls, rows[i]) % WORD else rs[i] == 0 && cs[i] == 0
  }

  /** The profile is the histogram of the calls. */
  ghost predicate Histogram(calls: seq<nat>, rs: seq<nat>, cs: seq<nat>, counter: nat) {
    && |rs| == |cs|
    && 0 !in calls
    && (forall i :: 0 <= i < |rs| ==> RowOk(calls, rs, cs, i))
    && counter == Others(calls, Rows(calls, |rs|)) % WORD
  }

  // ---------- the three ways a call is recorded ----------

  lemma RowsSeen(calls: seq<nat>, n: nat)
    ensures Distinct(Rows(calls, n)) && forall x :: x in Rows(calls, n) ==> x in calls
  {
    FirstsExact(calls);
  }

  lemma EmptyRows(calls: seq<nat>, rs: seq<nat>, cs: seq<nat>, counter: nat)
    requires Histogram(calls, rs, cs, counter)
    ensures forall k :: 0 <= k < |rs| ==> (rs[k] == 0 <==> k >= |Rows(calls, |rs|)|)
  {
    RowsSeen(calls, |rs|);
    forall k | 0 <= k < |rs| ensures rs[k] == 0 <==> k >= |Rows(calls, |rs|)| {
      assert RowOk(calls, rs, cs, k);
    }
  }

  lemma FirstZero(rs: seq<nat>, i: nat, n: nat)
    requires i <= |rs| && n <= |rs| && 0 !in rs[..i] && (i < |rs| ==> rs[i] == 0)
    requires forall k :: 0 <= k < |rs| ==> (rs[k] == 0 <==> k >= n)
    ensures i == n
  {
    assert forall k :: 0 <= k < i ==> rs[..i][k] == rs[k];
    if n < |rs| {
      assert rs[n] == 0;
    }
  }

  lemma Known(calls: seq<nat>, rs: seq<nat>, cs: seq<nat>, counter: nat, recv: nat, i: nat)
    requires Histogram(calls, rs, cs, counter) && recv != 0 && i < |rs| && rs[i] == recv
    ensures Histogram(calls + [recv], rs, cs[i := (cs[i] + 1) % WORD], counter)
  {
    var rows := Rows(calls, |rs|);
    assert RowOk(calls, rs, cs, i);
    FirstsOf(calls, recv);
    RowsSeen(calls, |rs|);
    assert recv == rows[i] && Rows(calls + [recv], |rs|) == rows;
    var cs' := cs[i := (cs[i] + 1) % WORD];
    forall k | 0 <= k < |rs| ensures RowOk(calls + [recv], rs, cs', k) {
      assert RowOk(calls, rs, cs, k);
    }
  }

  lemma Fresh(calls: seq<nat>, rs: seq<nat>, cs: seq<nat>, counter: nat, recv: nat, i: nat)
    requires Histogram(calls, rs, cs, counter) && recv != 0 && recv !in rs && i < |rs| && rs[i] == 0 && 0 !in rs[..i]
    ensures Histogram(calls + [recv], rs[i := recv], cs[i := 1], counter)
  {
    var rows := Rows(calls, |rs|);
    RowsSeen(calls, |rs|);
    EmptyRows(calls, rs, cs, counter);
    FirstZero(rs, i, |rows|);
    NotKnown(calls, rs, cs, counter, recv);
    FirstsOf(calls, recv);
    FirstsExact(calls);
    AbsentOccurs(calls, recv);
    OthersStep(calls, rows, recv);
    var rs', cs' := rs[i := recv], cs[i := 1];
    assert Rows(calls + [recv], |rs|) == rows + [recv];
    forall k | 0 <= k < |rs| ensures RowOk(calls + [recv], rs', cs', k) {
      assert RowOk(calls, rs, cs, k);
    }
  }

  lemma NotKnown(calls: seq<nat>, rs: seq<nat>, cs: seq<nat>, counter: nat, recv: nat)
    requires Histogram(calls, rs, cs, counter) && recv !in rs
    ensures recv !in Rows(calls, |rs|)
  {
    var rows := Rows(calls, |rs|);
    forall k | 0 <= k < |rows| ensures rows[k] != recv {
      assert RowOk(calls, rs, cs, k);
    }
  }

  lemma Polymorphic(calls: seq<nat>, rs: seq<nat>, cs: seq<nat>, counter: nat, recv: nat)
    requires Histogram(calls, rs, cs, counter) && recv != 0 && recv !in rs && 0 !in rs
    ensures Histogram(calls + [recv], rs, cs, (counter + 1) % WORD)
  {
    var rows := Rows(calls, |rs|);
    EmptyRows(calls, rs, cs, counter);
    FirstZero(rs, |rs|, |rows|);
    NotKnown(calls, rs, cs, counter, recv);
    FirstsOf(calls, recv);
    assert Rows(calls + [recv], |rs|) == rows;
    forall k | 0 <= k < |rs| ensures RowOk(calls + [recv], rs, cs, k) {
      assert RowOk(calls, rs, cs, k);
      assert recv != rows[k];
    }
  }

  // ---------- conservation ----------

  function Sum(cs: seq<nat>): nat { if cs == [] then 0 else Sum(cs[..|cs| - 1]) + cs[|cs| - 1] }

  /** Row counts plus the polymorphic counter are the number of calls, modulo the word size. */
  lemma CallsConserved(calls: seq<nat>, rs: seq<nat>, cs: seq<nat>, counter: nat)
    requires Histogram(calls, rs, cs, counter)
    ensures (Sum(cs) + counter) % WORD == |calls| % WORD
  {
    var rows := Rows(calls, |rs|);
    RowsSeen(calls, |rs|);
    Conserved(calls, rows);
    forall i | 0 <= i < |cs| ensures cs[i] == CountAt(calls, rows, i) {
      assert RowOk(calls, rs, cs, i);
    }
    SumRows(calls, rows, cs);
    AddWords(Sum(cs), SumOccurs(calls, rows), Others(calls, rows));
  }

  function CountAt(calls: seq<nat>, rows: seq<nat>, i: nat): nat { if i < |rows| then Occurs(calls, rows[i]) % WORD else 0 }

  lemma {:induction false} SumRows(calls: seq<nat>, rows: seq<nat>, cs: seq<nat>)
    requires |rows| <= |cs| && forall i :: 0 <= i < |cs| ==> cs[i] == CountAt(calls, rows, i)
    ensures Sum(cs) % WORD == SumOccurs(calls, rows) % WORD
    decreases |cs|
  {
    if cs != [] {
      var n := |cs| - 1;
      if n < |rows| {
        SumRows(calls, rows[..n], cs[..n]);
        AddWords(Sum(cs[..n]), SumOccurs(calls, rows[..n]), Occurs(calls, rows[n]));
      } else {
        SumRows(calls, rows, cs[..n]);
      }
    }
  }

  lemma AddWords(a: nat, b: nat, x: nat)
    requires a % WORD == b % WORD
    ensures (a + x % WORD) % WORD == (b + x) % WORD
  {
  }

  // ---------- the profile in memory ----------

  class VirtualCallData {
    /** Row i is empty when its receiver is 0. */
    const receivers: array<nat>
    const counts: array<nat>
    /** The counter of calls that found no row. */
    var counter: nat
    /** The receivers of all calls so far. */
    ghost var calls: seq<nat>

    ghost predicate Valid()
      reads this, receivers, counts
    {
      receivers != counts && Histogram(calls, receivers[..], counts[..], counter)
    }

    constructor (rowLimit: nat)
      ensures Valid() && calls == [] && receivers.Length == rowLimit && fresh(receivers) && fresh(counts)
    {
      receivers := new nat[rowLimit](_ => 0);
      counts := new nat[rowLimit](_ => 0);
      counter := 0;
      calls := [];
    }

    /** One profiled call; the counters are 64-bit words. */
    method ProfileCall(recv: nat)
      requires Valid() && 0 < recv < WORD
      modifies this, receivers, counts
      ensures Valid() && calls == old(calls) + [recv]
    {
      ghost var rs, cs := receivers[..], counts[..];
      var i := 0;
      while i < receivers.Length
        invariant 0 <= i <= receivers.Length && recv !in rs[..i]
        invariant receivers[..] == rs && counts[..] == cs && counter == old(counter) && calls == old(calls)
      {
        if receivers[i] == recv {
          Known(calls, rs, cs, counter, recv, i);
          counts[i] := (counts[i] + 1) % WORD;
          assert counts[..] == cs[i := (cs[i] + 1) % WORD];
          calls := calls + [recv];
          return;
        }
        i := i + 1;
      }
      i := 0;
      while i < receivers.Length
        invariant 0 <= i <= receivers.Length && 0 !in rs[..i]
        invariant receivers[..] == rs && counts[..] == cs && counter == old(counter) && calls == old(calls)
      {
        if receivers[i] == 0 {
          Fresh(calls, rs, cs, counter, recv, i);
          receivers[i] := recv;
          counts[i] := 1;
          assert receivers[..] == rs[i := recv] && counts[..] == cs[i := 1];
          calls := calls + [recv];
          return;
        }
        i := i + 1;
      }
      Polymorphic(calls, rs, cs, counter, recv);
      counter := (counter + 1) % WORD;
      calls := calls + [recv];
    }
  }
}
