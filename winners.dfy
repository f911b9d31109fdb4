/**
 * The winner tally of check-winner.js: for each winning number, in order,
 * and each player, in order, a player whose number is the winning number
 * scores a hit.  The first hit of a participant appends a copy of their
 * player record with one hit; every later hit of the same fid increments
 * that record's `hits`.
 *
 * Hits lists the matches in loop order, Bump is one iteration of the inner
 * loop body and Tally the whole aggregation.  TallyOf is the invariant the
 * aggregation keeps: one winner per participant who was hit, in order of
 * first hit, carrying the record of that first hit and as many hits as the
 * participant had matches.  CountWinners is the nested loop, proved to
 * compute Tally.
 */
module Winners {
  import opened Wrappers
  import opened Records

  /** A winner: the player record copied at the first hit, and the hits. */
  datatype Winner = Winner(player: Entry, hits: nat)

  // ---------------------------------------------------------------------
  // The matches, in loop order

  /** The players whose number is `num`, in player order. */
  function Matching(ps: seq<Entry>, num: string): seq<Entry> {
    if ps == [] then []
    else
      var p := ps[|ps| - 1];
      Matching(ps[..|ps| - 1], num) + (if p.number == num then [p] else [])
  }

  /** Every (winning number, player) match, outer loop over the winning
      numbers, inner loop over the players. */
  function Hits(nums: seq<string>, ps: seq<Entry>): seq<Entry> {
    if nums == [] then []
    else Hits(nums[..|nums| - 1], ps) + Matching(ps, nums[|nums| - 1])
  }

  /** Matching(ps, num) holds exactly the players numbered `num`. */
  lemma {:induction false} MatchingMembers(ps: seq<Entry>, num: string)
    ensures forall p :: p in Matching(ps, num) <==> p in ps && p.number == num
  {
    if ps != [] {
      var init := ps[..|ps| - 1];
      MatchingMembers(init, num);
      assert ps == init + [ps[|ps| - 1]];
    }
  }

  /** A match is a player whose number is one of the winning numbers. */
  lemma {:induction false} HitsMembers(nums: seq<string>, ps: seq<Entry>)
    ensures forall p :: p in Hits(nums, ps) <==> p in ps && p.number in nums
  {
    if nums != [] {
      var init := nums[..|nums| - 1];
      HitsMembers(init, ps);
      MatchingMembers(ps, nums[|nums| - 1]);
      assert nums == init + [nums[|nums| - 1]];
    }
  }

  /** The number of players numbered `num`. */
  function CountNumbered(ps: seq<Entry>, num: string): nat {
    if ps == [] then 0
    else (if ps[0].number == num then 1 else 0) + CountNumbered(ps[1..], num)
  }

  /** The number of pairs (winning number, player) with
      `player.number === num`. */
  function CountPairs(nums: seq<string>, ps: seq<Entry>): nat {
    if nums == [] then 0
    else CountNumbered(ps, nums[0]) + CountPairs(nums[1..], ps)
  }

  lemma {:induction false} CountNumberedSnoc(ps: seq<Entry>, p: Entry, num: string)
    ensures CountNumbered(ps + [p], num) == CountNumbered(ps, num) + (if p.number == num then 1 else 0)
  {
    if ps != [] {
      assert (ps + [p])[1..] == ps[1..] + [p];
      CountNumberedSnoc(ps[1..], p, num);
    } else {
      assert (ps + [p])[1..] == [];
    }
  }

  lemma {:induction false} CountPairsSnoc(nums: seq<string>, num: string, ps: seq<Entry>)
    ensures CountPairs(nums + [num], ps) == CountPairs(nums, ps) + CountNumbered(ps, num)
  {
    if nums != [] {
      assert (nums + [num])[1..] == nums[1..] + [num];
      CountPairsSnoc(nums[1..], num, ps);
    } else {
      assert (nums + [num])[1..] == [];
    }
  }

  lemma {:induction false} MatchingCount(ps: seq<Entry>, num: string)
    ensures |Matching(ps, num)| == CountNumbered(ps, num)
  {
    if ps != [] {
      var init, p := ps[..|ps| - 1], ps[|ps| - 1];
      MatchingCount(init, num);
      assert ps == init + [p];
      CountNumberedSnoc(init, p, num);
    }
  }

  /** There are as many matches as (winning number, player) pairs that
      match. */
  lemma {:induction false} HitsCount(nums: seq<string>, ps: seq<Entry>)
    ensures |Hits(nums, ps)| == CountPairs(nums, ps)
  {
    if nums != [] {
      var init, num := nums[..|nums| - 1], nums[|nums| - 1];
      HitsCount(init, ps);
      MatchingCount(ps, num);
      assert nums == init + [num];
      CountPairsSnoc(init, num, ps);
    }
  }

  // ---------------------------------------------------------------------
  // The aggregation

  /** `winners.find((w) => w.fid === fid)`: the first winner with that fid. */
  function Find(ws: seq<Winner>, fid: int): (r: Option<nat>)
    ensures r.Some? ==> r.value < |ws| && ws[r.value].player.fid == fid
    ensures forall j :: 0 <= j < |ws| && (r.None? || j < r.value) ==> ws[j].player.fid != fid
  {
    if ws == [] then None
    else if ws[0].player.fid == fid then Some(0)
    else
      match Find(ws[1..], fid)
      case None => None
      case Some(i) => Some(i + 1)
  }

  /** One match of player p: an existing winner with p's fid gets one more
      hit, otherwise a copy of p with one hit is appended. */
  function Bump(ws: seq<Winner>, p: Entry): seq<Winner> {
    match Find(ws, p.fid)
    case Some(k) => ws[k := ws[k].(hits := ws[k].hits + 1)]
    case None => ws + [Winner(p, 1)]
  }

  /** The winners after the matches hs, starting from ws. */
  function BumpAll(ws: seq<Winner>, hs: seq<Entry>): seq<Winner> {
    if hs == [] then ws
    else Bump(BumpAll(ws, hs[..|hs| - 1]), hs[|hs| - 1])
  }

  /** The `winners` list once both loops are done. */
  function Tally(nums: seq<string>, ps: seq<Entry>): seq<Winner> {
    BumpAll([], Hits(nums, ps))
  }

  lemma {:induction false} BumpAllAppend(ws: seq<Winner>, a: seq<Entry>, b: seq<Entry>)
    ensures BumpAll(ws, a + b) == BumpAll(BumpAll(ws, a), b)
    decreases |b|
  {
    if b == [] {
      assert a + b == a;
    } else {
      var init := b[..|b| - 1];
      assert (a + b)[..|a + b| - 1] == a + init;
      BumpAllAppend(ws, a, init);
    }
  }

  lemma BumpAllSnoc(ws: seq<Winner>, a: seq<Entry>, p: Entry)
    ensures BumpAll(ws, a + [p]) == Bump(BumpAll(ws, a), p)
  {
    assert (a + [p])[..|a|] == a;
  }

  // ---------------------------------------------------------------------
  // What the aggregation keeps

  /** The number of matches of participant f. */
  function FidCount(hs: seq<Entry>, f: int): nat {
    if hs == [] then 0
    else (if hs[0].fid == f then 1 else 0) + FidCount(hs[1..], f)
  }

  /** The position of participant f's first match. */
  ghost function FirstHit(hs: seq<Entry>, f: int): (r: nat)
    requires FidCount(hs, f) > 0
    ensures r < |hs| && hs[r].fid == f
    ensures forall j :: 0 <= j < r ==> hs[j].fid != f
  {
    if hs[0].fid == f then 0 else 1 + FirstHit(hs[1..], f)
  }

  /** No two winners share a fid. */
  ghost predicate Distinct(ws: seq<Winner>) {
    forall i, j :: 0 <= i < j < |ws| ==> ws[i].player.fid != ws[j].player.fid
  }

  /** Every winner's participant was matched. */
  ghost predicate Seen(ws: seq<Winner>, hs: seq<Entry>) {
    forall i :: 0 <= i < |ws| ==> FidCount(hs, ws[i].player.fid) > 0
  }

  /** Every winner holds the record of its participant's first match. */
  ghost predicate Copied(ws: seq<Winner>, hs: seq<Entry>)
    requires Seen(ws, hs)
  {
    forall i :: 0 <= i < |ws| ==> ws[i].player == hs[FirstHit(hs, ws[i].player.fid)]
  }

  /** Every winner has one hit per match of its participant. */
  ghost predicate Counted(ws: seq<Winner>, hs: seq<Entry>) {
    forall i :: 0 <= i < |ws| ==> ws[i].hits == FidCount(hs, ws[i].player.fid)
  }

  /** Winners come in the order of their first match. */
  ghost predicate Ordered(ws: seq<Winner>, hs: seq<Entry>)
    requires Seen(ws, hs)
  {
    forall i, j :: 0 <= i < j < |ws| ==>
      FirstHit(hs, ws[i].player.fid) < FirstHit(hs, ws[j].player.fid)
  }

  /** Every matched participant is a winner. */
  ghost predicate Covers(ws: seq<Winner>, hs: seq<Entry>) {
    forall k :: 0 <= k < |hs| ==> Find(ws, hs[k].fid).Some?
  }

  /** ws is the tally of the matches hs: one winner per participant matched,
      in order of first match, each holding the record of its first match and
      one hit per match. */
  ghost predicate TallyOf(ws: seq<Winner>, hs: seq<Entry>) {
    Distinct(ws) && Seen(ws, hs) && Copied(ws, hs) && Counted(ws, hs)
    && Ordered(ws, hs) && Covers(ws, hs)
  }

  lemma {:induction false} FidCountSnoc(hs: seq<Entry>, x: Entry, f: int)
    ensures FidCount(hs + [x], f) == FidCount(hs, f) + (if x.fid == f then 1 else 0)
  {
    if hs == [] {
      assert (hs + [x])[1..] == [];
    } else {
      assert (hs + [x])[1..] == hs[1..] + [x];
      FidCountSnoc(hs[1..], x, f);
    }
  }

  /** A participant with a match has its matches counted. */
  lemma {:induction false} FidCountAt(hs: seq<Entry>, j: nat)
    requires j < |hs|
    ensures FidCount(hs, hs[j].fid) > 0
  {
    if j > 0 {
      assert hs[1..][j - 1] == hs[j];
      FidCountAt(hs[1..], j - 1);
    }
  }

  lemma FirstHitSnoc(hs: seq<Entry>, x: Entry, f: int)
    requires FidCount(hs, f) > 0
    ensures FidCount(hs + [x], f) > 0 && FirstHit(hs + [x], f) == FirstHit(hs, f)
  {
    FidCountSnoc(hs, x, f);
    assert (hs + [x])[FirstHit(hs, f)].fid == f;
  }

  lemma FirstHitNew(hs: seq<Entry>, x: Entry)
    requires FidCount(hs, x.fid) == 0
    ensures FidCount(hs + [x], x.fid) > 0 && FirstHit(hs + [x], x.fid) == |hs|
  {
    FidCountSnoc(hs, x, x.fid);
    var a := FirstHit(hs + [x], x.fid);
    if a < |hs| {
      FidCountAt(hs, a);
    }
  }

  /** One more match of an already matched participant leaves every first
      match, and so the winners' records and order, as they were. */
  lemma SamePlayersKeep(ws: seq<Winner>, ws': seq<Winner>, hs: seq<Entry>, x: Entry)
    requires |ws'| == |ws| && forall i :: 0 <= i < |ws| ==> ws'[i].player == ws[i].player
    requires Seen(ws, hs) && Copied(ws, hs) && Ordered(ws, hs)
    ensures Seen(ws', hs + [x]) && Copied(ws', hs + [x]) && Ordered(ws', hs + [x])
  {
    var hs' := hs + [x];
    forall i | 0 <= i < |ws|
      ensures FidCount(hs', ws'[i].player.fid) > 0
      ensures FirstHit(hs', ws'[i].player.fid) == FirstHit(hs, ws[i].player.fid)
    {
      FirstHitSnoc(hs, x, ws[i].player.fid);
    }
    assert Seen(ws', hs');
  }

  /** One more match of a winner's participant: every matched participant
      is still a winner. */
  lemma SamePlayersCover(ws: seq<Winner>, ws': seq<Winner>, hs: seq<Entry>, x: Entry)
    requires |ws'| == |ws| && forall i :: 0 <= i < |ws| ==> ws'[i].player == ws[i].player
    requires Covers(ws, hs) && Find(ws, x.fid).Some?
    ensures Covers(ws', hs + [x])
  {
    var hs' := hs + [x];
    forall j | 0 <= j < |hs'| ensures Find(ws', hs'[j].fid).Some? {
      var f := hs'[j].fid;
      var i := Find(ws, f).value;
      assert ws'[i].player.fid == f;
    }
  }

  /** A repeat match of a winner's participant: only that winner's hits
      change. */
  lemma BumpExisting(ws: seq<Winner>, hs: seq<Entry>, x: Entry, k: nat)
    requires TallyOf(ws, hs) && Find(ws, x.fid) == Some(k)
    ensures TallyOf(ws[k := ws[k].(hits := ws[k].hits + 1)], hs + [x])
  {
    var ws' := ws[k := ws[k].(hits := ws[k].hits + 1)];
    SamePlayersKeep(ws, ws', hs, x);
    SamePlayersCover(ws, ws', hs, x);
    forall i | 0 <= i < |ws'| ensures ws'[i].hits == FidCount(hs + [x], ws'[i].player.fid) {
      FidCountSnoc(hs, x, ws[i].player.fid);
    }
  }

  /** A participant not among the winners has not been matched. */
  lemma UnmatchedNotCounted(ws: seq<Winner>, hs: seq<Entry>, f: int)
    requires Covers(ws, hs) && Find(ws, f).None?
    ensures FidCount(hs, f) == 0
  {
    if FidCount(hs, f) > 0 {
      ghost var j := FirstHit(hs, f);
    }
  }

  /** A participant's first match: the old winners keep their records and
      hits, and the new one holds the match with one hit. */
  lemma BumpNewRecords(ws: seq<Winner>, hs: seq<Entry>, x: Entry)
    requires Seen(ws, hs) && Copied(ws, hs) && Counted(ws, hs) && FidCount(hs, x.fid) == 0
    ensures var ws', hs' := ws + [Winner(x, 1)], hs + [x];
      Seen(ws', hs') && Copied(ws', hs') && Counted(ws', hs')
  {
    var ws' := ws + [Winner(x, 1)];
    var hs' := hs + [x];
    FirstHitNew(hs, x);
    FidCountSnoc(hs, x, x.fid);
    forall i | 0 <= i < |ws|
      ensures FidCount(hs', ws'[i].player.fid) > 0
      ensures FirstHit(hs', ws'[i].player.fid) == FirstHit(hs, ws[i].player.fid)
      ensures ws'[i].hits == FidCount(hs', ws'[i].player.fid)
    {
      FirstHitSnoc(hs, x, ws[i].player.fid);
      FidCountSnoc(hs, x, ws[i].player.fid);
    }
    assert Seen(ws', hs');
  }

  /** A participant's first match: the new winner comes after the others. */
  lemma BumpNewOrdered(ws: seq<Winner>, hs: seq<Entry>, x: Entry)
    requires Seen(ws, hs) && Ordered(ws, hs) && FidCount(hs, x.fid) == 0
    requires Seen(ws + [Winner(x, 1)], hs + [x])
    ensures Ordered(ws + [Winner(x, 1)], hs + [x])
  {
    var ws' := ws + [Winner(x, 1)];
    var hs' := hs + [x];
    FirstHitNew(hs, x);
    forall i | 0 <= i < |ws|
      ensures FirstHit(hs', ws'[i].player.fid) == FirstHit(hs, ws[i].player.fid)
    {
      FirstHitSnoc(hs, x, ws[i].player.fid);
    }
  }

  /** A participant's first match: every matched participant is still a
      winner. */
  lemma BumpNewCovers(ws: seq<Winner>, hs: seq<Entry>, x: Entry)
    requires Covers(ws, hs)
    ensures Covers(ws + [Winner(x, 1)], hs + [x])
  {
    var ws' := ws + [Winner(x, 1)];
    var hs' := hs + [x];
    forall j | 0 <= j < |hs'| ensures Find(ws', hs'[j].fid).Some? {
      var f := hs'[j].fid;
      if j < |hs| {
        var i := Find(ws, f).value;
        assert ws'[i].player.fid == f;
      } else {
        assert ws'[|ws|].player.fid == f;
      }
    }
  }

  /** A participant's first match: a new winner at the end. */
  lemma BumpNew(ws: seq<Winner>, hs: seq<Entry>, x: Entry)
    requires TallyOf(ws, hs) && Find(ws, x.fid).None?
    ensures TallyOf(ws + [Winner(x, 1)], hs + [x])
  {
    UnmatchedNotCounted(ws, hs, x.fid);
    BumpNewRecords(ws, hs, x);
    BumpNewOrdered(ws, hs, x);
    BumpNewCovers(ws, hs, x);
  }

  lemma BumpKeepsTally(ws: seq<Winner>, hs: seq<Entry>, x: Entry)
    requires TallyOf(ws, hs)
    ensures TallyOf(Bump(ws, x), hs + [x])
  {
    match Find(ws, x.fid)
    case Some(k) => BumpExisting(ws, hs, x, k);
    case None => BumpNew(ws, hs, x);
  }

  /** The aggregation yields the tally of all matches. */
  lemma {:induction false} BumpAllIsTally(hs: seq<Entry>)
    ensures TallyOf(BumpAll([], hs), hs)
  {
    if hs != [] {
      var init, x := hs[..|hs| - 1], hs[|hs| - 1];
      BumpAllIsTally(init);
      BumpKeepsTally(BumpAll([], init), init, x);
      assert init + [x] == hs;
    }
  }

  // ---------------------------------------------------------------------
  // Sum of hits

  function SumHits(ws: seq<Winner>): nat {
    if ws == [] then 0 else ws[0].hits + SumHits(ws[1..])
  }

  lemma {:induction false} SumHitsSnoc(ws: seq<Winner>, w: Winner)
    ensures SumHits(ws + [w]) == SumHits(ws) + w.hits
  {
    if ws == [] {
      assert (ws + [w])[1..] == [];
    } else {
      assert (ws + [w])[1..] == ws[1..] + [w];
      SumHitsSnoc(ws[1..], w);
    }
  }

  lemma {:induction false} SumHitsBump(ws: seq<Winner>, k: nat)
    requires k < |ws|
    ensures SumHits(ws[k := ws[k].(hits := ws[k].hits + 1)]) == SumHits(ws) + 1
  {
    var ws' := ws[k := ws[k].(hits := ws[k].hits + 1)];
    if k > 0 {
      assert ws'[1..] == ws[1..][k - 1 := ws[k].(hits := ws[k].hits + 1)];
      SumHitsBump(ws[1..], k - 1);
    } else {
      assert ws'[1..] == ws[1..];
    }
  }

  /** Each match adds exactly one hit. */
  lemma {:induction false} SumHitsBumpAll(hs: seq<Entry>)
    ensures SumHits(BumpAll([], hs)) == |hs|
  {
    if hs != [] {
      var init, x := hs[..|hs| - 1], hs[|hs| - 1];
      SumHitsBumpAll(init);
      var ws := BumpAll([], init);
      match Find(ws, x.fid)
      case Some(k) => SumHitsBump(ws, k);
      case None => SumHitsSnoc(ws, Winner(x, 1));
    }
  }

  // ---------------------------------------------------------------------
  // What check-winner.js reports

  /** No two winners share a fid; every winner has at least one hit and is
      a player whose number is a winning number. */
  lemma WinnersWellFormed(nums: seq<string>, ps: seq<Entry>)
    ensures var ws := Tally(nums, ps);
      && (forall i, j :: 0 <= i < j < |ws| ==> ws[i].player.fid != ws[j].player.fid)
      && (forall i :: 0 <= i < |ws| ==>
            ws[i].hits >= 1 && ws[i].player in ps && ws[i].player.number in nums)
  {
    var hs := Hits(nums, ps);
    var ws := Tally(nums, ps);
    BumpAllIsTally(hs);
    HitsMembers(nums, ps);
    forall i | 0 <= i < |ws|
      ensures ws[i].hits >= 1 && ws[i].player in ps && ws[i].player.number in nums
    {
      assert ws[i].player in hs;
    }
  }

  /** The hits of all winners add up to the number of matching
      (winning number, player) pairs. */
  lemma WinnersHitsSum(nums: seq<string>, ps: seq<Entry>)
    ensures SumHits(Tally(nums, ps)) == CountPairs(nums, ps)
  {
    SumHitsBumpAll(Hits(nums, ps));
    HitsCount(nums, ps);
  }

  /** A winner keeps the record of its first hit, has one hit per match of
      its participant, and winners come in order of first hit; every matched
      participant is a winner. */
  lemma WinnersFirstHitOrder(nums: seq<string>, ps: seq<Entry>)
    ensures TallyOf(Tally(nums, ps), Hits(nums, ps))
  {
    BumpAllIsTally(Hits(nums, ps));
  }

  /** There are no winners exactly when no player's number is a winning
      number. */
  lemma WinnersEmptyIff(nums: seq<string>, ps: seq<Entry>)
    ensures Tally(nums, ps) == [] <==> forall p :: p in ps ==> p.number !in nums
  {
    var hs := Hits(nums, ps);
    BumpAllIsTally(hs);
    HitsMembers(nums, ps);
    if hs != [] {
      assert Find(Tally(nums, ps), hs[0].fid).Some?;
    } else {
      forall p | p in ps ensures p.number !in nums {
        assert p !in hs;
      }
    }
  }

  // ---------------------------------------------------------------------
  // The loops

  /** The `find` over `winners`. */
  method FindWinner(winners: seq<Winner>, fid: int) returns (existing: Option<nat>)
    ensures existing == Find(winners, fid)
  {
    var i := 0;
    while i < |winners|
      invariant 0 <= i <= |winners|
      invariant forall j :: 0 <= j < i ==> winners[j].player.fid != fid
    {
      if winners[i].player.fid == fid {
        FindFirst(winners, fid, i);
        return Some(i);
      }
      i := i + 1;
    }
    FindFirst(winners, fid, i);
    existing := None;
  }

  /** Find is the first index with the fid, or None when there is none. */
  lemma FindFirst(ws: seq<Winner>, fid: int, i: nat)
    requires i <= |ws| && forall j :: 0 <= j < i ==> ws[j].player.fid != fid
    requires i < |ws| ==> ws[i].player.fid == fid
    ensures Find(ws, fid) == if i < |ws| then Some(i) else None
  {
    var r := Find(ws, fid);
    if r.Some? {
      assert r.value >= i;
    }
  }

  /** The nested loops of check-winner.js. */
  method CountWinners(winningNumbers: seq<string>, players: seq<Entry>) returns (winners: seq<Winner>)
    ensures winners == Tally(winningNumbers, players)
  {
    winners := [];
    for i := 0 to |winningNumbers|
      invariant winners == Tally(winningNumbers[..i], players)
    {
      var num := winningNumbers[i];
      ghost var before := winners;
      for j := 0 to |players|
        invariant winners == BumpAll(before, Matching(players[..j], num))
      {
        var player := players[j];
        assert players[..j + 1][..j] == players[..j];
        if player.number == num {
          ghost var prev := winners;
          var existing := FindWinner(winners, player.fid);
          if existing.Some? {
            var k := existing.value;
            winners := winners[k := winners[k].(hits := winners[k].hits + 1)];
          } else {
            winners := winners + [Winner(player, 1)];
          }
          assert winners == Bump(prev, player);
          assert Matching(players[..j + 1], num) == Matching(players[..j], num) + [player];
          BumpAllSnoc(before, Matching(players[..j], num), player);
        } else {
          assert Matching(players[..j + 1], num) == Matching(players[..j], num);
        }
      }
      assert players[..|players|] == players;
      BumpAllAppend([], Hits(winningNumbers[..i], players), Matching(players, num));
      assert winningNumbers[..i + 1][..i] == winningNumbers[..i];
    }
    assert winningNumbers[..|winningNumbers|] == winningNumbers;
  }

  /** check-winner.js up to its empty test: the winners, and whether there
      is any. */
  method CheckWinners(winningNumbers: seq<string>, players: seq<Entry>)
    returns (winners: seq<Winner>, anyWinner: bool)
    ensures winners == Tally(winningNumbers, players)
    ensures anyWinner <==> exists p :: p in players && p.number in winningNumbers
  {
    winners := CountWinners(winningNumbers, players);
    anyWinner := |winners| != 0;
    WinnersEmptyIff(winningNumbers, players);
  }
}
