/**
 * The part of `getPlayersData` that runs after the replies are fetched:
 * sort them by timestamp, resolve claims first come, first served, list the
 * accepted entries in number order and build the result record.
 *
 * Run is the specification of the resolution loop: the table after the
 * loop has looked at a prefix of the sorted replies.  The lemmas below state
 * what it guarantees: entries are well formed, no two share a participant or
 * a number, a reply is accepted exactly when it has a number that is not
 * yet taken and comes from a participant not yet accepted, and
 * `skippedDuplicates` counts exactly the replies turned away for a taken
 * number.  ResolveClaims, ListPlayers and GetPlayersData are the loops of
 * the source, proved against these functions.
 */
module Resolver {
  import opened Wrappers
  import opened Records
  import opened Claims
  import opened TimeSort

  /** The loop stops once this many numbers are taken. */
  const MaxPlayers := 100

  /** The state of the resolution loop: `seenFids`, `numberMap` and
      `skippedDuplicates`. */
  datatype Table = Table(seenFids: set<int>, numberMap: map<string, Entry>, skippedDuplicates: nat)

  const EmptyTable := Table({}, map[], 0)

  /** What the loop body reads off a reply before deciding on it: the fid,
      the username, the trimmed text, the timestamp and the number that
      extractNumberFromText finds in that text. */
  datatype Candidate = Candidate(fid: int, username: string, text: string, timestamp: int, number: Option<string>)

  function Read(r: Reply): Candidate {
    var text := Trim(r.text);
    Candidate(r.fid, r.username, text, r.timestamp, ExtractNumber(text))
  }

  /** The candidates of the replies, in reply order. */
  function Candidates(rs: seq<Reply>): (cs: seq<Candidate>)
    ensures |cs| == |rs|
  {
    seq(|rs|, j requires 0 <= j < |rs| => Read(rs[j]))
  }

  predicate Full(t: Table) {
    |t.numberMap| >= MaxPlayers
  }

  /** The loop has not stopped, the candidate claims a number, its fid has
      no entry yet and its number is free: it gets an entry. */
  predicate Accepts(t: Table, c: Candidate) {
    && !Full(t)
    && c.number.Some?
    && c.fid !in t.seenFids
    && c.number.value !in t.numberMap
  }

  /** As Accepts, but the number is taken: it is counted as a duplicate. */
  predicate Skips(t: Table, c: Candidate) {
    && !Full(t)
    && c.number.Some?
    && c.fid !in t.seenFids
    && c.number.value in t.numberMap
  }

  /** The entry recorded for candidate c claiming `number`. */
  function EntryOf(c: Candidate, number: string): Entry {
    Entry(c.username, c.fid, number, c.timestamp, c.text)
  }

  /** One pass of the loop body over a candidate; once the table is full
      the loop has stopped and nothing changes. */
  function Step(t: Table, c: Candidate): Table {
    if Accepts(t, c) then
      var n := c.number.value;
      Table(t.seenFids + {c.fid}, t.numberMap[n := EntryOf(c, n)], t.skippedDuplicates)
    else if Skips(t, c) then t.(skippedDuplicates := t.skippedDuplicates + 1)
    else t
  }

  /** The table once the loop has looked at the first i candidates of cs in
      order. */
  function Before(cs: seq<Candidate>, i: nat): Table
    requires i <= |cs|
  {
    if i == 0 then EmptyTable else Step(Before(cs, i - 1), cs[i - 1])
  }

  /** The table once the loop is done with the replies rs. */
  function Run(rs: seq<Reply>): Table {
    Before(Candidates(rs), |rs|)
  }

  /** Candidate i is scanned (the loop has not stopped) and accepted. */
  predicate AcceptedAt(cs: seq<Candidate>, i: nat)
    requires i < |cs|
  {
    Accepts(Before(cs, i), cs[i])
  }

  /** Candidate i is scanned and turned away because its number is taken. */
  predicate SkippedAt(cs: seq<Candidate>, i: nat)
    requires i < |cs|
  {
    Skips(Before(cs, i), cs[i])
  }

  // ---------------------------------------------------------------------
  // The table invariant

  /** Every entry is filed under its own number, `seenFids` holds exactly
      the entries' fids, and no two entries share a fid. */
  ghost predicate WellFormed(t: Table) {
    && |t.numberMap| <= MaxPlayers
    && (forall n :: n in t.numberMap ==>
          t.numberMap[n].number == n)
    && (forall n :: n in t.numberMap ==> t.numberMap[n].fid in t.seenFids)
    && (forall f :: f in t.seenFids ==> exists n :: n in t.numberMap && t.numberMap[n].fid == f)
    && (forall n, m :: n in t.numberMap && m in t.numberMap && n != m ==>
          t.numberMap[n].fid != t.numberMap[m].fid)
  }

  /** Filing a new entry under a free number for a new participant keeps the
      table invariant. */
  lemma FileWellFormed(t: Table, n: string, e: Entry)
    requires WellFormed(t) && |t.numberMap| < MaxPlayers
    requires n !in t.numberMap && e.fid !in t.seenFids
    requires e.number == n
    ensures WellFormed(Table(t.seenFids + {e.fid}, t.numberMap[n := e], t.skippedDuplicates))
  {
    var m' := t.numberMap[n := e];
    var seen' := t.seenFids + {e.fid};
    forall f | f in seen'
      ensures exists k :: k in m' && m'[k].fid == f
    {
      if f == e.fid {
        assert m'[n].fid == f;
      } else {
        var k :| k in t.numberMap && t.numberMap[k].fid == f;
        assert m'[k] == t.numberMap[k];
      }
    }
  }

  lemma StepWellFormed(t: Table, c: Candidate)
    requires WellFormed(t)
    ensures WellFormed(Step(t, c))
    ensures Step(t, c).skippedDuplicates + |Step(t, c).numberMap|
         <= t.skippedDuplicates + |t.numberMap| + 1
  {
    if Accepts(t, c) {
      var n := c.number.value;
      FileWellFormed(t, n, EntryOf(c, n));
    }
  }

  /** The table invariant holds at every point of the scan, and each candidate
      adds at most one to `skippedDuplicates + |numberMap|`. */
  lemma {:induction false} BeforeWellFormed(cs: seq<Candidate>, i: nat)
    requires i <= |cs|
    ensures WellFormed(Before(cs, i))
    ensures Before(cs, i).skippedDuplicates + |Before(cs, i).numberMap| <= i
  {
    if i > 0 {
      BeforeWellFormed(cs, i - 1);
      StepWellFormed(Before(cs, i - 1), cs[i - 1]);
    }
  }

  // ---------------------------------------------------------------------
  // First come, first served

  /** The fids of the candidates accepted among the first i. */
  ghost function AcceptedFids(cs: seq<Candidate>, i: nat): set<int>
    requires i <= |cs|
  {
    set j | 0 <= j < i && AcceptedAt(cs, j) :: cs[j].fid
  }

  /** The numbers claimed by the candidates accepted among the first i. */
  ghost function TakenNumbers(cs: seq<Candidate>, i: nat): set<string>
    requires i <= |cs|
  {
    NumbersOf(cs, AcceptedIndices(cs, i))
  }

  /** The candidates among the first i that are accepted. */
  ghost function AcceptedIndices(cs: seq<Candidate>, i: nat): (js: set<nat>)
    requires i <= |cs|
    ensures forall j :: j in js ==> j < |cs| && cs[j].number.Some?
  {
    set j: nat | j < i && AcceptedAt(cs, j)
  }

  /** The numbers the candidates at indices js claim. */
  ghost function NumbersOf(cs: seq<Candidate>, js: set<nat>): set<string>
    requires forall j :: j in js ==> j < |cs| && cs[j].number.Some?
  {
    set j | j in js :: cs[j].number.value
  }

  /** The candidates among the first i turned away for a taken number. */
  ghost function SkippedIndices(cs: seq<Candidate>, i: nat): set<nat>
    requires i <= |cs|
  {
    set j: nat | j < i && SkippedAt(cs, j)
  }

  lemma AcceptedFidsNext(cs: seq<Candidate>, k: nat)
    requires k < |cs|
    ensures AcceptedFids(cs, k + 1) ==
              if AcceptedAt(cs, k) then AcceptedFids(cs, k) + {cs[k].fid} else AcceptedFids(cs, k)
  {
    var later, sooner := AcceptedFids(cs, k + 1), AcceptedFids(cs, k);
    forall f | f in later
      ensures f in sooner || (AcceptedAt(cs, k) && f == cs[k].fid)
    {
      var j :| 0 <= j < k + 1 && AcceptedAt(cs, j) && cs[j].fid == f;
      if j < k {
        assert f in sooner;
      }
    }
    forall f | f in sooner ensures f in later {
      var j :| 0 <= j < k && AcceptedAt(cs, j) && cs[j].fid == f;
    }
    if AcceptedAt(cs, k) {
      assert cs[k].fid in later;
    }
  }

  lemma NumbersOfAdd(cs: seq<Candidate>, js: set<nat>, k: nat)
    requires forall j :: j in js ==> j < |cs| && cs[j].number.Some?
    requires k < |cs| && cs[k].number.Some?
    ensures NumbersOf(cs, js + {k}) == NumbersOf(cs, js) + {cs[k].number.value}
  {
    var later, sooner := NumbersOf(cs, js + {k}), NumbersOf(cs, js);
    forall n | n in later ensures n in sooner || n == cs[k].number.value {
      var j :| j in js + {k} && cs[j].number.value == n;
      if j != k {
        assert n in sooner;
      }
    }
    assert cs[k].number.value in later;
  }

  lemma AcceptedIndicesNext(cs: seq<Candidate>, k: nat)
    requires k < |cs|
    ensures AcceptedIndices(cs, k + 1) ==
              if AcceptedAt(cs, k) then AcceptedIndices(cs, k) + {k} else AcceptedIndices(cs, k)
  {
  }

  lemma TakenNumbersNext(cs: seq<Candidate>, k: nat)
    requires k < |cs|
    ensures TakenNumbers(cs, k + 1) ==
              if AcceptedAt(cs, k) then TakenNumbers(cs, k) + {cs[k].number.value} else TakenNumbers(cs, k)
  {
    AcceptedIndicesNext(cs, k);
    if AcceptedAt(cs, k) {
      NumbersOfAdd(cs, AcceptedIndices(cs, k), k);
    }
  }

  lemma SkippedIndicesNext(cs: seq<Candidate>, k: nat)
    requires k < |cs|
    ensures SkippedIndices(cs, k + 1) ==
              if SkippedAt(cs, k) then SkippedIndices(cs, k) + {k} else SkippedIndices(cs, k)
    ensures k !in SkippedIndices(cs, k)
  {
  }

  /** One step of the scan on each component of the table: candidate k
      changes the table exactly as the verdict on it says. */
  lemma SeenNext(cs: seq<Candidate>, k: nat)
    requires k < |cs|
    ensures Before(cs, k + 1).seenFids ==
              if AcceptedAt(cs, k) then Before(cs, k).seenFids + {cs[k].fid} else Before(cs, k).seenFids
  {
  }

  lemma NumberMapNext(cs: seq<Candidate>, k: nat)
    requires k < |cs|
    ensures AcceptedAt(cs, k) ==>
              cs[k].number.value !in Before(cs, k).numberMap
              && Before(cs, k + 1).numberMap ==
                   Before(cs, k).numberMap[cs[k].number.value := EntryOf(cs[k], cs[k].number.value)]
    ensures !AcceptedAt(cs, k) ==> Before(cs, k + 1).numberMap == Before(cs, k).numberMap
  {
  }

  lemma SkippedNext(cs: seq<Candidate>, k: nat)
    requires k < |cs|
    ensures Before(cs, k + 1).skippedDuplicates ==
              if SkippedAt(cs, k) then Before(cs, k).skippedDuplicates + 1
              else Before(cs, k).skippedDuplicates
  {
  }

  /** After i candidates, `seenFids` are the fids of the accepted ones. */
  lemma {:induction false} SeenAreAccepted(cs: seq<Candidate>, i: nat)
    requires i <= |cs|
    ensures Before(cs, i).seenFids == AcceptedFids(cs, i)
  {
    if i > 0 {
      var k := i - 1;
      SeenAreAccepted(cs, k);
      SeenNext(cs, k);
      AcceptedFidsNext(cs, k);
      if AcceptedAt(cs, k) {
        assert Before(cs, i).seenFids == AcceptedFids(cs, k) + {cs[k].fid};
      } else {
        assert Before(cs, i).seenFids == AcceptedFids(cs, k);
      }
    }
  }

  /** After i candidates, the keys of `numberMap` are the numbers of the
      accepted ones. */
  lemma {:induction false} KeysAreTaken(cs: seq<Candidate>, i: nat)
    requires i <= |cs|
    ensures Before(cs, i).numberMap.Keys == TakenNumbers(cs, i)
  {
    if i > 0 {
      var k := i - 1;
      KeysAreTaken(cs, k);
      NumberMapNext(cs, k);
      TakenNumbersNext(cs, k);
      if AcceptedAt(cs, k) {
        var m := Before(cs, k).numberMap;
        var n := cs[k].number.value;
        assert m[n := EntryOf(cs[k], n)].Keys == m.Keys + {n};
      }
    }
  }

  /** After i candidates, `skippedDuplicates` counts the ones turned away
      for a taken number. */
  lemma {:induction false} SkippedAreCounted(cs: seq<Candidate>, i: nat)
    requires i <= |cs|
    ensures Before(cs, i).skippedDuplicates == |SkippedIndices(cs, i)|
  {
    if i == 0 {
      assert SkippedIndices(cs, 0) == {};
    } else {
      var k := i - 1;
      SkippedAreCounted(cs, k);
      SkippedNext(cs, k);
      SkippedIndicesNext(cs, k);
      if SkippedAt(cs, k) {
        assert |SkippedIndices(cs, k) + {k}| == |SkippedIndices(cs, k)| + 1;
      }
    }
  }

  /** An accepted candidate's entry stays filed under its number: nothing
      later overwrites it. */
  lemma {:induction false} EntryKept(cs: seq<Candidate>, j: nat, i: nat)
    requires j < i <= |cs| && AcceptedAt(cs, j)
    ensures cs[j].number.value in Before(cs, i).numberMap
    ensures Before(cs, i).numberMap[cs[j].number.value] == EntryOf(cs[j], cs[j].number.value)
  {
    var k := i - 1;
    NumberMapNext(cs, k);
    if j < k {
      EntryKept(cs, j, k);
      var m := Before(cs, k).numberMap;
      if AcceptedAt(cs, k) {
        assert cs[j].number.value in m && cs[k].number.value !in m;
        assert m[cs[k].number.value := EntryOf(cs[k], cs[k].number.value)][cs[j].number.value]
            == m[cs[j].number.value];
      }
    }
  }

  /** A candidate is accepted exactly when the scan has not stopped, it claims a
      number, no earlier accepted candidate has its fid, and no earlier accepted
      candidate claimed its number. */
  lemma AcceptedIff(cs: seq<Candidate>, i: nat)
    requires i < |cs|
    ensures AcceptedAt(cs, i) <==>
      && !Full(Before(cs, i))
      && cs[i].number.Some?
      && cs[i].fid !in AcceptedFids(cs, i)
      && cs[i].number.value !in TakenNumbers(cs, i)
  {
    SeenAreAccepted(cs, i);
    KeysAreTaken(cs, i);
  }

  /** A candidate is counted in `skippedDuplicates` exactly when the scan has not
      stopped, it claims a number, no earlier accepted candidate has its fid,
      and an earlier accepted candidate claimed its number. */
  lemma SkippedIff(cs: seq<Candidate>, i: nat)
    requires i < |cs|
    ensures SkippedAt(cs, i) <==>
      && !Full(Before(cs, i))
      && cs[i].number.Some?
      && cs[i].fid !in AcceptedFids(cs, i)
      && cs[i].number.value in TakenNumbers(cs, i)
  {
    SeenAreAccepted(cs, i);
    KeysAreTaken(cs, i);
  }

  /** Of two candidates claiming the same number, a later one is never accepted
      once an earlier one was. */
  lemma NumberGoesToFirstClaimant(cs: seq<Candidate>, j: nat, i: nat)
    requires j < i < |cs| && AcceptedAt(cs, j) && cs[i].number == cs[j].number
    ensures !AcceptedAt(cs, i)
  {
    AcceptedIff(cs, i);
    assert cs[j].number.value in TakenNumbers(cs, i);
  }

  /** A participant is accepted at most once: only their first accepted
      candidate counts. */
  lemma ParticipantAcceptedOnce(cs: seq<Candidate>, j: nat, i: nat)
    requires j < i < |cs| && AcceptedAt(cs, j) && cs[i].fid == cs[j].fid
    ensures !AcceptedAt(cs, i)
  {
    AcceptedIff(cs, i);
    assert cs[j].fid in AcceptedFids(cs, i);
  }

  /** Once full, the table no longer changes. */
  lemma {:induction false} FullIsFinal(cs: seq<Candidate>, i: nat, k: nat)
    requires i <= k <= |cs| && Full(Before(cs, i))
    ensures Before(cs, k) == Before(cs, i)
    decreases k - i
  {
    if i < k {
      var t := Before(cs, i);
      assert !Accepts(t, cs[i]) && !Skips(t, cs[i]);
      assert Before(cs, i + 1) == Step(t, cs[i]) == t;
      FullIsFinal(cs, i + 1, k);
    }
  }

  // ---------------------------------------------------------------------
  // fullList: the entries in number order

  /** Two-digit keys in strictly ascending order of value (so none occurs
      twice). */
  ghost predicate AscendingKeys(keys: seq<string>) {
    && (forall i :: 0 <= i < |keys| ==> IsTwoDigits(keys[i]))
    && (forall i, j :: 0 <= i < j < |keys| ==> DecimalValue(keys[i]) < DecimalValue(keys[j]))
  }

  /** The numbers of the entries, in list order. */
  function Numbers(list: seq<Entry>): (ns: seq<string>)
    ensures |ns| == |list| && forall i :: 0 <= i < |list| ==> ns[i] == list[i].number
  {
    seq(|list|, i requires 0 <= i < |list| => list[i].number)
  }

  /** Every entry carries a two-digit number and the numbers strictly
      ascend. */
  ghost predicate InNumberOrder(list: seq<Entry>) {
    AscendingKeys(Numbers(list))
  }

  /** The labels of 0 .. n-1: `String(i).padStart(2, '0')`. */
  function Labels(n: nat): (r: seq<string>)
    ensures |r| == n
  {
    seq(n, i requires 0 <= i < n => TwoDigitLabel(i))
  }

  /** The entries of m under the given keys, in key order. */
  function Collect(m: map<string, Entry>, keys: seq<string>): seq<Entry> {
    if keys == [] then []
    else
      var key := keys[|keys| - 1];
      Collect(m, keys[..|keys| - 1]) + (if key in m then [m[key]] else [])
  }

  /** `fullList` after looking at the labels of 0 .. n-1. */
  function Listing(m: map<string, Entry>, n: nat): seq<Entry> {
    Collect(m, Labels(n))
  }

  ghost predicate KeyedByNumber(m: map<string, Entry>) {
    forall k :: k in m ==> IsTwoDigits(k) && m[k].number == k
  }

  /** Each of the first n labels reads back as its own position. */
  lemma LabelsReadBack(n: nat)
    requires n <= 100
    ensures forall i :: 0 <= i < n ==> IsTwoDigits(Labels(n)[i]) && DecimalValue(Labels(n)[i]) == i
  {
    forall i | 0 <= i < n ensures IsTwoDigits(Labels(n)[i]) && DecimalValue(Labels(n)[i]) == i {
      LabelRoundTrip(i);
    }
  }

  /** The labels of 0 .. n-1 ascend. */
  lemma LabelsAscending(n: nat)
    requires n <= 100
    ensures AscendingKeys(Labels(n))
  {
    LabelsReadBack(n);
  }

  lemma LabelListed(v: nat)
    requires v < 100
    ensures TwoDigitLabel(v) in Labels(100)
  {
    var ls := Labels(100);
    assert ls[v] == TwoDigitLabel(v);
  }

  /** Every two-digit string is one of the labels of 0 .. 99. */
  lemma LabelsCover(k: string)
    requires IsTwoDigits(k)
    ensures k in Labels(100)
  {
    LabelOfValue(k);
    LabelListed(DecimalValue(k));
  }

  /** Collect(m, keys) holds only entries of m, each filed under its own
      number, which is one of the keys. */
  lemma {:induction false} CollectMembers(m: map<string, Entry>, keys: seq<string>)
    requires KeyedByNumber(m)
    ensures forall i :: 0 <= i < |Collect(m, keys)| ==>
              var e := Collect(m, keys)[i];
              e.number in m && m[e.number] == e && e.number in keys
  {
    if keys != [] {
      var init := keys[..|keys| - 1];
      CollectMembers(m, init);
      assert forall k :: k in init ==> k in keys;
    }
  }

  lemma NumbersSnoc(list: seq<Entry>, e: Entry)
    ensures Numbers(list + [e]) == Numbers(list) + [e.number]
  {
    assert Numbers(list + [e])[|list|] == e.number;
  }

  /** A two-digit key above all keys of an ascending sequence extends it. */
  lemma AscendingSnoc(keys: seq<string>, key: string)
    requires AscendingKeys(keys) && IsTwoDigits(key)
    requires forall i :: 0 <= i < |keys| ==> DecimalValue(keys[i]) < DecimalValue(key)
    ensures AscendingKeys(keys + [key])
  {
  }

  /** Over ascending keys, Collect yields strictly ascending numbers. */
  lemma {:induction false} CollectOrdered(m: map<string, Entry>, keys: seq<string>)
    requires KeyedByNumber(m) && AscendingKeys(keys)
    ensures InNumberOrder(Collect(m, keys))
  {
    if keys != [] {
      var init, key := keys[..|keys| - 1], keys[|keys| - 1];
      assert AscendingKeys(init);
      CollectOrdered(m, init);
      var prev := Collect(m, init);
      if key in m {
        CollectMembers(m, init);
        var ns := Numbers(prev);
        forall i | 0 <= i < |ns| ensures DecimalValue(ns[i]) < DecimalValue(key) {
          var j :| 0 <= j < |init| && init[j] == prev[i].number;
        }
        AscendingSnoc(ns, key);
        NumbersSnoc(prev, m[key]);
      }
    }
  }

  /** Every entry of m filed under one of the keys is collected. */
  lemma {:induction false} CollectComplete(m: map<string, Entry>, keys: seq<string>)
    ensures forall k :: k in m && k in keys ==> m[k] in Collect(m, keys)
  {
    if keys != [] {
      var init := keys[..|keys| - 1];
      CollectComplete(m, init);
      forall k | k in m && k in keys ensures m[k] in Collect(m, keys) {
        if k != keys[|keys| - 1] {
          var j :| 0 <= j < |keys| && keys[j] == k;
          assert k in init;
        }
      }
    }
  }

  /** The keys of m that occur in keys. */
  ghost function KeysAmong(m: map<string, Entry>, keys: seq<string>): set<string> {
    set k | k in m && k in keys
  }

  lemma KeysAmongNext(m: map<string, Entry>, keys: seq<string>)
    requires keys != []
    ensures var key := keys[|keys| - 1];
      KeysAmong(m, keys) == KeysAmong(m, keys[..|keys| - 1]) + (if key in m then {key} else {})
  {
    var init, key := keys[..|keys| - 1], keys[|keys| - 1];
    assert keys == init + [key];
    forall k ensures k in keys <==> k in init || k == key {
      assert k in init ==> k in keys;
    }
  }

  /** Over distinct keys, Collect yields one entry per key of m among them. */
  lemma {:induction false} CollectLength(m: map<string, Entry>, keys: seq<string>)
    requires forall i, j :: 0 <= i < j < |keys| ==> keys[i] != keys[j]
    ensures |Collect(m, keys)| == |KeysAmong(m, keys)|
  {
    if keys == [] {
      assert KeysAmong(m, keys) == {};
    } else {
      var init, key := keys[..|keys| - 1], keys[|keys| - 1];
      CollectLength(m, init);
      KeysAmongNext(m, keys);
      var before := KeysAmong(m, init);
      assert key !in init;
      if key in m {
        assert |before + {key}| == |before| + 1;
      }
    }
  }

  lemma AscendingDistinct(keys: seq<string>)
    requires AscendingKeys(keys)
    ensures forall i, j :: 0 <= i < j < |keys| ==> keys[i] != keys[j]
  {
    forall i, j | 0 <= i < j < |keys| ensures keys[i] != keys[j] {
      assert DecimalValue(keys[i]) < DecimalValue(keys[j]);
    }
  }

  /** Every key of a table keyed by number is one of the labels of 0 .. 99. */
  lemma KeysListed(m: map<string, Entry>)
    requires KeyedByNumber(m)
    ensures forall k :: k in m ==> k in Labels(100)
  {
    forall k | k in m ensures k in Labels(100) {
      LabelsCover(k);
    }
  }

  lemma KeysAmongAll(m: map<string, Entry>, keys: seq<string>)
    requires forall k :: k in m ==> k in keys
    ensures KeysAmong(m, keys) == m.Keys
  {
  }

  /** `fullList` has one element per entry of the table. */
  lemma FullListLength(m: map<string, Entry>)
    requires KeyedByNumber(m)
    ensures |Listing(m, 100)| == |m|
  {
    var ls := Labels(100);
    LabelsAscending(100);
    AscendingDistinct(ls);
    CollectLength(m, ls);
    KeysListed(m);
    KeysAmongAll(m, ls);
  }

  /** `fullList` holds exactly the entries of the table. */
  lemma FullListContents(m: map<string, Entry>)
    requires KeyedByNumber(m)
    ensures forall e :: e in Listing(m, 100) <==> e in m.Values
  {
    var ls := Labels(100);
    CollectMembers(m, ls);
    CollectComplete(m, ls);
    forall e | e in m.Values ensures e in Listing(m, 100) {
      var k :| k in m && m[k] == e;
      LabelsCover(k);
    }
  }

  /** `fullList` holds every entry of the table, in strictly ascending number
      order, and nothing else. */
  lemma FullListFacts(m: map<string, Entry>)
    requires KeyedByNumber(m)
    ensures |Listing(m, 100)| == |m|
    ensures InNumberOrder(Listing(m, 100))
    ensures forall e :: e in Listing(m, 100) <==> e in m.Values
  {
    FullListLength(m);
    LabelsAscending(100);
    CollectOrdered(m, Labels(100));
    FullListContents(m);
  }

  // ---------------------------------------------------------------------
  // The result of getPlayersData

  datatype Outcome = Outcome(
    totalReplies: nat,
    skippedDuplicates: nat,
    fullList: seq<Entry>,
    totalPlayers: nat,
    isFull: bool)

  /** getPlayersData after the fetch, as a function of the fetched replies. */
  function PlayersData(fetched: seq<Reply>): Outcome {
    var t := Run(StableSort(fetched));
    var fullList := Listing(t.numberMap, 100);
    Outcome(|fetched|, t.skippedDuplicates, fullList, |fullList|, |fullList| >= 100)
  }

  /** Entry e is the claim of one of the replies: its fields are the
      reply's, its comment the reply's trimmed text, and its number the one
      extractNumberFromText finds there. */
  ghost predicate FromReply(e: Entry, fetched: seq<Reply>) {
    && ExtractNumber(e.comment) == Some(e.number)
    && exists r :: r in fetched && e == EntryOf(Read(r), e.number)
  }

  /** What the result of getPlayersData guarantees. */
  ghost predicate GoodOutcome(fetched: seq<Reply>, out: Outcome) {
    var list := out.fullList;
    && out.totalReplies == |fetched|
    && out.totalPlayers == |list| <= MaxPlayers
    && (out.isFull <==> out.totalPlayers == MaxPlayers)
    && out.skippedDuplicates + out.totalPlayers <= out.totalReplies
    && (forall i :: 0 <= i < |list| ==> FromReply(list[i], fetched))
    // strictly ascending numbers, hence no number twice
    && InNumberOrder(list)
    // no participant twice
    && (forall i, j :: 0 <= i < j < |list| ==> list[i].fid != list[j].fid)
  }

  /** Every key of the final table is a number some candidate claimed, and
      the entry under it is that candidate's. */
  lemma FinalEntryOrigin(cs: seq<Candidate>, k: string) returns (j: nat)
    requires k in Before(cs, |cs|).numberMap
    ensures j < |cs| && cs[j].number == Some(k)
    ensures Before(cs, |cs|).numberMap[k] == EntryOf(cs[j], k)
  {
    KeysAreTaken(cs, |cs|);
    assert k in TakenNumbers(cs, |cs|);
    j :| 0 <= j < |cs| && AcceptedAt(cs, j) && cs[j].number.value == k;
    EntryKept(cs, j, |cs|);
  }

  /** The table built from the sorted replies holds only claims of the
      fetched replies, keyed by their two-digit numbers. */
  lemma SortedTableFacts(fetched: seq<Reply>)
    ensures var t := Run(StableSort(fetched));
      && WellFormed(t)
      && t.skippedDuplicates + |t.numberMap| <= |fetched|
      && KeyedByNumber(t.numberMap)
      && forall k :: k in t.numberMap ==> FromReply(t.numberMap[k], fetched)
  {
    var sorted := StableSort(fetched);
    var cs := Candidates(sorted);
    StableSortPermutes(fetched);
    assert |sorted| == |fetched| by {
      assert |multiset(sorted)| == |multiset(fetched)|;
    }
    BeforeWellFormed(cs, |cs|);
    var m := Before(cs, |cs|).numberMap;
    forall k | k in m ensures IsTwoDigits(k) && FromReply(m[k], fetched) {
      var j := FinalEntryOrigin(cs, k);
      assert cs[j] == Read(sorted[j]);
      assert sorted[j] in multiset(fetched);
    }
  }

  /** Entries of distinct keys have distinct fids, so a listing over
      ascending keys never shows a participant twice. */
  lemma CollectFidsDistinct(m: map<string, Entry>, keys: seq<string>)
    requires KeyedByNumber(m) && AscendingKeys(keys)
    requires forall a, b :: a in m && b in m && a != b ==> m[a].fid != m[b].fid
    ensures forall i, j :: 0 <= i < j < |Collect(m, keys)| ==>
              Collect(m, keys)[i].fid != Collect(m, keys)[j].fid
  {
    var list := Collect(m, keys);
    CollectMembers(m, keys);
    CollectOrdered(m, keys);
    forall i, j | 0 <= i < j < |list| ensures list[i].fid != list[j].fid {
      var a, b := list[i].number, list[j].number;
      assert DecimalValue(a) < DecimalValue(b);
      assert m[a] == list[i] && m[b] == list[j];
    }
  }

  lemma ListedFromReplies(m: map<string, Entry>, fetched: seq<Reply>)
    requires KeyedByNumber(m)
    requires forall k :: k in m ==> FromReply(m[k], fetched)
    ensures forall i :: 0 <= i < |Listing(m, 100)| ==> FromReply(Listing(m, 100)[i], fetched)
  {
    CollectMembers(m, Labels(100));
  }

  lemma PlayersDataGood(fetched: seq<Reply>)
    ensures GoodOutcome(fetched, PlayersData(fetched))
  {
    SortedTableFacts(fetched);
    var m := Run(StableSort(fetched)).numberMap;
    FullListFacts(m);
    LabelsAscending(100);
    CollectFidsDistinct(m, Labels(100));
    ListedFromReplies(m, fetched);
  }

  /** Tied replies anywhere in the fetch: the one fetched earlier is
      scanned earlier, so once it is accepted, the later one is not accepted
      for the same number, nor for the same participant. */
  lemma TieGoesToEarlierFetched(fetched: seq<Reply>, p: nat, q: nat) returns (i: nat, j: nat)
    requires p < q < |fetched| && fetched[p].timestamp == fetched[q].timestamp
    ensures var cs := Candidates(StableSort(fetched));
      && i < j < |cs| && cs[i] == Read(fetched[p]) && cs[j] == Read(fetched[q])
      && (AcceptedAt(cs, i) && cs[j].number == cs[i].number ==> !AcceptedAt(cs, j))
      && (AcceptedAt(cs, i) && cs[j].fid == cs[i].fid ==> !AcceptedAt(cs, j))
  {
    i, j := TiedKeepOrder(fetched, p, q);
    var cs := Candidates(StableSort(fetched));
    if AcceptedAt(cs, i) && cs[j].number == cs[i].number {
      NumberGoesToFirstClaimant(cs, i, j);
    }
    if AcceptedAt(cs, i) && cs[j].fid == cs[i].fid {
      ParticipantAcceptedOnce(cs, i, j);
    }
  }

  /** Two replies with equal timestamps stay in fetched order. */
  lemma TiedPairSorted(r1: Reply, r2: Reply)
    requires r1.timestamp == r2.timestamp
    ensures StableSort([r1, r2]) == [r1, r2]
  {
    assert [r1, r2][..1] == [r1];
    assert StableSort([r1]) == [r1] by {
      assert [r1][..0] == [];
    }
  }

  /** Two candidates from different participants claiming the same number:
      the first is accepted, the second counted as a duplicate. */
  lemma ContestedPair(c1: Candidate, c2: Candidate)
    requires c1.fid != c2.fid && c1.number.Some? && c2.number == c1.number
    ensures Before([c1, c2], 2)
         == Table({c1.fid}, map[c1.number.value := EntryOf(c1, c1.number.value)], 1)
  {
    var n := c1.number.value;
    assert Before([c1, c2], 1) == Table({c1.fid}, map[n := EntryOf(c1, n)], 0);
  }

  lemma PairCandidates(r1: Reply, r2: Reply)
    ensures Candidates([r1, r2]) == [Read(r1), Read(r2)]
  {
    var cs := Candidates([r1, r2]);
    assert cs[0] == Read(r1) && cs[1] == Read(r2);
  }

  /** The table built from two such replies. */
  lemma TiedPairTable(r1: Reply, r2: Reply)
    requires r1.timestamp == r2.timestamp && r1.fid != r2.fid
    requires Read(r1).number.Some? && Read(r2).number == Read(r1).number
    ensures var n := Read(r1).number.value;
      Run(StableSort([r1, r2])) == Table({r1.fid}, map[n := EntryOf(Read(r1), n)], 1)
  {
    TiedPairSorted(r1, r2);
    PairCandidates(r1, r2);
    ContestedPair(Read(r1), Read(r2));
  }

  /** A table with a single entry lists just that entry. */
  lemma SingleListing(n: string, e: Entry)
    requires IsTwoDigits(n) && e.number == n
    ensures Listing(map[n := e], 100) == [e]
  {
    var m := map[n := e];
    assert KeyedByNumber(m);
    FullListFacts(m);
    assert Listing(m, 100)[0] in m.Values;
  }

  /** Two replies with the same timestamp, from different participants,
      claiming the same number: the stable sort keeps them in fetched order,
      so the one fetched first gets the number and the other is counted as a
      duplicate. */
  lemma TieGoesToFirstFetched(r1: Reply, r2: Reply)
    requires r1.timestamp == r2.timestamp && r1.fid != r2.fid
    requires Read(r1).number.Some? && Read(r2).number == Read(r1).number
    ensures var out := PlayersData([r1, r2]);
      && out.fullList == [EntryOf(Read(r1), Read(r1).number.value)]
      && out.skippedDuplicates == 1
  {
    var c1 := Read(r1);
    TiedPairTable(r1, r2);
    SingleListing(c1.number.value, EntryOf(c1, c1.number.value));
  }

  // ---------------------------------------------------------------------
  // The loops

  /** The resolution loop of getPlayersData over the sorted replies. */
  method ResolveClaims(replies: seq<Reply>) returns (t: Table)
    ensures t == Run(replies)
    ensures WellFormed(t)
  {
    ghost var cs := Candidates(replies);
    var seenFids: set<int> := {};
    var numberMap: map<string, Entry> := map[];
    var skippedDuplicates: nat := 0;
    for i := 0 to |replies|
      invariant Table(seenFids, numberMap, skippedDuplicates) == Before(cs, i)
    {
      if |numberMap| >= MaxPlayers {
        FullIsFinal(cs, i, |cs|);
        break;
      }
      var reply := replies[i];
      var fid := reply.fid;
      var username := reply.username;
      var text := Trim(reply.text);
      var timestamp := reply.timestamp;
      var number := ExtractNumber(text);
      ghost var t := Table(seenFids, numberMap, skippedDuplicates);
      assert cs[i] == Candidate(fid, username, text, timestamp, number);

      if number.None? || fid in seenFids {
        assert Before(cs, i + 1) == t by {
          assert !Accepts(t, cs[i]) && !Skips(t, cs[i]);
        }
        continue;
      }

      if number.value in numberMap {
        assert Skips(t, cs[i]);
        skippedDuplicates := skippedDuplicates + 1;
        continue;
      }

      assert Accepts(t, cs[i]);
      numberMap := numberMap[number.value := Entry(username, fid, number.value, timestamp, text)];
      seenFids := seenFids + {fid};
    }
    t := Table(seenFids, numberMap, skippedDuplicates);
    BeforeWellFormed(cs, |cs|);
  }

  /** The loop that builds `fullList` from `numberMap`. */
  method ListPlayers(numberMap: map<string, Entry>) returns (fullList: seq<Entry>)
    ensures fullList == Listing(numberMap, 100)
    ensures KeyedByNumber(numberMap) ==>
              |fullList| == |numberMap|
              && (forall e :: e in fullList <==> e in numberMap.Values)
              && InNumberOrder(fullList)
  {
    fullList := [];
    for i := 0 to 100
      invariant fullList == Listing(numberMap, i)
    {
      var num := TwoDigitLabel(i);
      assert Labels(i + 1)[..i] == Labels(i) && Labels(i + 1)[i] == num;
      if num in numberMap {
        fullList := fullList + [numberMap[num]];
      }
    }
    if KeyedByNumber(numberMap) {
      FullListFacts(numberMap);
    }
  }

  /** getPlayersData after the fetch: sort, resolve, list, report. */
  method GetPlayersData(fetched: seq<Reply>) returns (out: Outcome)
    ensures out == PlayersData(fetched)
    ensures GoodOutcome(fetched, out)
  {
    var allReplies := new Reply[|fetched|](k requires 0 <= k < |fetched| => fetched[k]);
    assert allReplies[..] == fetched;
    SortByTimestamp(allReplies);
    var t := ResolveClaims(allReplies[..]);
    var fullList := ListPlayers(t.numberMap);
    out := Outcome(allReplies.Length, t.skippedDuplicates, fullList, |fullList|, |fullList| >= 100);
    PlayersDataGood(fetched);
  }

  /** The result depends on the fetched replies alone: two requests that see
      the same replies get the same result. */
  method GetPlayersDataTwice(fetched: seq<Reply>) returns (first: Outcome, second: Outcome)
    ensures first == second
  {
    first := GetPlayersData(fetched);
    second := GetPlayersData(fetched);
  }
}
