/**
 * The generation history: most recent first, at most ten records, a new
 * record prepended only when its machine id differs from the head's.
 */
module History {
  import opened JsText

  /** One completed derivation: the trimmed machine id, its key, and when it was made (milliseconds). */
  datatype Generation = Generation(machineId: string, key: string, timestamp: int)

  /** How many records the history keeps. */
  const MaxHistory: nat := 10

  /** `s.slice(0, n)`: the first `n` elements, or all of them when there are fewer. */
  function Take<T>(s: seq<T>, n: nat): (r: seq<T>)
    ensures |r| == Min(|s|, n)
    ensures r == s[..|r|]
  {
    if |s| <= n then s else s[..n]
  }

  /** The new history after a derivation for `gen.machineId`. */
  function RecordIfNew(history: seq<Generation>, gen: Generation): (r: seq<Generation>)
    ensures |history| > 0 && history[0].machineId == gen.machineId ==> r == history
    ensures !(|history| > 0 && history[0].machineId == gen.machineId) ==>
      |r| == Min(|history| + 1, MaxHistory) && r[0] == gen &&
      r[1..] == history[..Min(|history|, MaxHistory - 1)]
  {
    if |history| > 0 && history[0].machineId == gen.machineId then history
    else Take([gen] + history, MaxHistory)
  }

  /**
   * What every history built from the empty one by recording keeps: at most
   * ten records, trimmed non-empty machine ids, and no two neighbours with
   * the same machine id.
   */
  predicate WellFormed(history: seq<Generation>) {
    |history| <= MaxHistory && AllTrimmedIds(history) &&
    forall i :: 0 < i < |history| ==> history[i - 1].machineId != history[i].machineId
  }

  /** Every record's machine id is trimmed and not empty. */
  predicate AllTrimmedIds(history: seq<Generation>) {
    history == [] || (IsTrimmedId(history[0].machineId) && AllTrimmedIds(history[1..]))
  }

  lemma {:induction false} AllTrimmedIdsPrefix(history: seq<Generation>, n: nat)
    requires AllTrimmedIds(history) && n <= |history|
    ensures AllTrimmedIds(history[..n])
    decreases n
  {
    if n > 0 {
      assert history[..n][1..] == history[1..][..n - 1];
      AllTrimmedIdsPrefix(history[1..], n - 1);
    }
  }

  /** A machine id as the generator stores it: not empty, no whitespace at either end. */
  predicate IsTrimmedId(id: string) {
    id != "" && !IsWhitespace(id[0]) && !IsWhitespace(id[|id| - 1])
  }

  /** Recording a trimmed, non-empty machine id keeps the history well formed. */
  lemma RecordIfNewWellFormed(history: seq<Generation>, gen: Generation)
    requires IsTrimmedId(gen.machineId)
    ensures WellFormed(history) ==> WellFormed(RecordIfNew(history, gen))
  {
    var r := RecordIfNew(history, gen);
    if WellFormed(history) && r != history {
      var t := [gen] + history;
      assert r == Take(t, MaxHistory);
      assert |r| <= MaxHistory;
      assert t[1..] == history;
      AllTrimmedIdsPrefix(t, |r|);
      forall i | 0 < i < |r|
        ensures r[i - 1].machineId != r[i].machineId
      {
        assert r[i] == t[i] && r[i - 1] == t[i - 1];
      }
    }
  }

  /** Deriving the same machine id twice in a row records it once. */
  lemma RepeatRecordedOnce(history: seq<Generation>, first: Generation, again: Generation)
    requires first.machineId == again.machineId
    ensures RecordIfNew(RecordIfNew(history, first), again) == RecordIfNew(history, first)
  {
  }

  /**
   * Only the head is compared: after `a`, then a different `b`, then `a`
   * again, the history starts with the second `a`, then `b`, then a record
   * for `a` once more.
   */
  lemma ReappearsAfterOther(history: seq<Generation>, a1: Generation, b: Generation, a2: Generation)
    requires a1.machineId == a2.machineId && b.machineId != a1.machineId
    ensures var r := RecordIfNew(RecordIfNew(RecordIfNew(history, a1), b), a2);
            |r| >= 3 && r[0] == a2 && r[1] == b && r[2].machineId == a1.machineId
  {
    var h1 := RecordIfNew(history, a1);
    var h2 := RecordIfNew(h1, b);
    assert h2[1..] == h1[..Min(|h1|, MaxHistory - 1)];
    assert h2[1] == h1[0];
  }

  /** The records in the order opposite to `s`. */
  function Reversed<T>(s: seq<T>): (r: seq<T>)
    ensures |r| == |s|
  {
    if s == [] then [] else Reversed(s[1..]) + [s[0]]
  }

  lemma {:induction false} ReversedAt<T>(s: seq<T>, i: nat)
    requires i < |s|
    ensures Reversed(s)[i] == s[|s| - 1 - i]
    decreases |s|
  {
    if i < |s| - 1 {
      ReversedAt(s[1..], i);
    }
  }

  /** The history after deriving `gens` one after the other, oldest first. */
  function RecordAll(history: seq<Generation>, gens: seq<Generation>): seq<Generation>
    decreases |gens|
  {
    if gens == [] then history else RecordAll(RecordIfNew(history, gens[0]), gens[1..])
  }

  /** Consecutive derivations whose machine ids differ from their predecessor's. */
  predicate NoRepeats(history: seq<Generation>, gens: seq<Generation>) {
    (|gens| > 0 && |history| > 0 ==> gens[0].machineId != history[0].machineId) &&
    forall i :: 0 < i < |gens| ==> gens[i - 1].machineId != gens[i].machineId
  }

  lemma TakeTake<T>(a: seq<T>, b: seq<T>, n: nat)
    ensures Take(a + Take(b, n), n) == Take(a + b, n)
  {
    if |b| > n {
      var l := Take(a + b, n);
      assert Take(a + Take(b, n), n) == l by {
        assert |Take(a + Take(b, n), n)| == |l|;
        forall k | 0 <= k < |l|
          ensures Take(a + Take(b, n), n)[k] == l[k]
        {
          if k >= |a| {
            assert (a + Take(b, n))[k] == b[k - |a|];
          }
        }
      }
    }
  }

  lemma NoRepeatsAfterFirst(history: seq<Generation>, gens: seq<Generation>)
    requires |gens| > 0 && NoRepeats(history, gens)
    ensures NoRepeats(Take([gens[0]] + history, MaxHistory), gens[1..])
  {
    var h1 := Take([gens[0]] + history, MaxHistory);
    var rest := gens[1..];
    assert h1[0] == gens[0];
    if |rest| > 0 {
      assert rest[0] == gens[1];
    }
    forall i | 0 < i < |rest|
      ensures rest[i - 1].machineId != rest[i].machineId
    {
      assert rest[i - 1] == gens[i] && rest[i] == gens[i + 1];
    }
  }

  /** Without a repeat at the head, the first derivation of a run is prepended. */
  lemma RecordAllFirst(history: seq<Generation>, gens: seq<Generation>)
    requires |gens| > 0 && NoRepeats(history, gens)
    ensures RecordAll(history, gens) == RecordAll(Take([gens[0]] + history, MaxHistory), gens[1..])
  {
  }

  /** Prepending the reversal of `rest` to the cut history is cutting once at the end. */
  lemma PrependReversed(rest: seq<Generation>, g: Generation, history: seq<Generation>)
    ensures Take(Reversed(rest) + Take([g] + history, MaxHistory), MaxHistory)
         == Take(Reversed([g] + rest) + history, MaxHistory)
  {
    TakeTake(Reversed(rest), [g] + history, MaxHistory);
    assert ([g] + rest)[1..] == rest;
    assert Reversed(rest) + ([g] + history) == Reversed([g] + rest) + history;
  }

  /**
   * When no derivation repeats the machine id before it, every one is
   * recorded: the history is the derivations, newest first, in front of the
   * old history, cut to ten.
   */
  lemma {:induction false} RecordAllNoRepeats(history: seq<Generation>, gens: seq<Generation>)
    requires |history| <= MaxHistory && NoRepeats(history, gens)
    ensures RecordAll(history, gens) == Take(Reversed(gens) + history, MaxHistory)
    decreases |gens|
  {
    if gens == [] {
      assert Reversed(gens) + history == history;
    } else {
      RecordAllFirst(history, gens);
      NoRepeatsAfterFirst(history, gens);
      RecordAllNoRepeats(Take([gens[0]] + history, MaxHistory), gens[1..]);
      PrependReversed(gens[1..], gens[0], history);
      assert [gens[0]] + gens[1..] == gens;
    }
  }

  /**
   * Starting from an empty history, ten or more derivations without
   * repeats leave exactly ten records: the last ten derivations, newest first.
   */
  lemma LastTenKept(gens: seq<Generation>)
    requires NoRepeats([], gens) && |gens| >= MaxHistory
    ensures |RecordAll([], gens)| == MaxHistory
    ensures forall i :: 0 <= i < MaxHistory ==> RecordAll([], gens)[i] == gens[|gens| - 1 - i]
  {
    RecordAllNoRepeats([], gens);
    assert Reversed(gens) + [] == Reversed(gens);
    forall i | 0 <= i < MaxHistory
      ensures RecordAll([], gens)[i] == gens[|gens| - 1 - i]
    {
      ReversedAt(gens, i);
    }
  }
}
