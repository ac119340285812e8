/**
 * The transfer review panel: the client-side grouping of linked transfer
 * transactions into pairs, and the choice of the amounts shown in a pair's
 * debit (red) and credit (green) cells.
 */
module TransferReview {
  import opened Options

  /** A transaction `_id` as the backend serialises it. */
  type TxId = string

  /** One fetched transaction. `linkedId` is `linked_tx_id` (None for null or
      missing); `amount` is in integer cents, negative for a debit. Dates,
      account names and descriptions are only displayed and are left out. */
  datatype Txn = Txn(id: TxId, isTransfer: bool, linkedId: Option<TxId>, amount: int)

  /** One row of the review list. */
  datatype Pair = Pair(source: Txn, target: Txn)

  /** The transfer filter: the transfer flag is set and the link is a truthy
      value, which for a string id means a non-empty one. */
  predicate IsCandidate(t: Txn) {
    t.isTransfer && t.linkedId.Some? && t.linkedId.value != ""
  }

  /** The transfer candidates, in the order of the fetched list. */
  function Candidates(all: seq<Txn>): (cs: seq<Txn>)
    ensures |cs| <= |all|
  {
    if all == [] then []
    else
      var init, t := all[..|all| - 1], all[|all| - 1];
      assert all == init + [t];
      var rest := Candidates(init);
      if IsCandidate(t) then rest + [t] else rest
  }

  /** The candidates are exactly the transactions of the list that pass the filter. */
  lemma {:induction false} CandidatesMembers(all: seq<Txn>)
    ensures forall t :: t in Candidates(all) <==> t in all && IsCandidate(t)
  {
    if all != [] {
      var init, t := all[..|all| - 1], all[|all| - 1];
      assert all == init + [t];
      CandidatesMembers(init);
    }
  }

  /** Filtering commutes with concatenation, so it keeps the relative order. */
  lemma {:induction false} CandidatesAppend(a: seq<Txn>, b: seq<Txn>)
    ensures Candidates(a + b) == Candidates(a) + Candidates(b)
  {
    if b == [] {
      assert a + b == a;
    } else {
      var init, t := b[..|b| - 1], b[|b| - 1];
      CandidatesAppend(a, init);
      var ab := a + b;
      assert ab[..|ab| - 1] == a + init && ab[|ab| - 1] == t;
      var tail := if IsCandidate(t) then [t] else [];
      assert Candidates(ab) == Candidates(a + init) + tail;
      assert Candidates(b) == Candidates(init) + tail;
      assert Candidates(a) + Candidates(init) + tail == Candidates(a) + (Candidates(init) + tail);
    }
  }

  /** The index of the first transaction in `cs` whose `_id` is `id`
      (the predicate of `Array.prototype.find`). */
  function FirstWithId(cs: seq<Txn>, id: TxId): (r: Option<nat>)
    ensures r.Some? ==> r.value < |cs| && cs[r.value].id == id
    ensures r.Some? ==> forall j :: 0 <= j < r.value ==> cs[j].id != id
    ensures r.None? ==> forall j :: 0 <= j < |cs| ==> cs[j].id != id
  {
    if cs == [] then None
    else if cs[0].id == id then Some(0)
    else
      match FirstWithId(cs[1..], id)
      case None => None
      case Some(k) => Some(k + 1)
  }

  /** The search for `t`'s partner: the first candidate whose id is `t`'s link,
      as an index. */
  function FindPartner(cs: seq<Txn>, t: Txn): (r: Option<nat>)
    ensures r.Some? ==> r.value < |cs| && t.linkedId == Some(cs[r.value].id)
    ensures r.Some? ==> forall j :: 0 <= j < r.value ==> t.linkedId != Some(cs[j].id)
    ensures r.None? ==> forall j :: 0 <= j < |cs| ==> t.linkedId != Some(cs[j].id)
  {
    match t.linkedId
    case None => None
    case Some(link) => FirstWithId(cs, link)
  }

  /** The state of the grouping walk: the `pairs` array, the `processed` set,
      and (for the proofs only) the candidate index each pair's source came from. */
  datatype Progress = Progress(pairs: seq<Pair>, processed: set<TxId>, sources: seq<nat>)

  /** One iteration of the `forEach` callback, on candidate number `i`. */
  function Visit(cs: seq<Txn>, i: nat, st: Progress): Progress
    requires i < |cs|
  {
    var t := cs[i];
    if t.id in st.processed then st
    else
      match FindPartner(cs, t)
      case None => st
      case Some(k) =>
        Progress(st.pairs + [Pair(t, cs[k])], st.processed + {t.id, cs[k].id}, st.sources + [i])
  }

  /** The state after the walk has visited the first `n` candidates. */
  function Walk(cs: seq<Txn>, n: nat): Progress
    requires n <= |cs|
  {
    if n == 0 then Progress([], {}, []) else Visit(cs, n - 1, Walk(cs, n - 1))
  }

  /** The pairs the panel shows for the fetched list `all`. */
  function ResolvedPairs(all: seq<Txn>): seq<Pair> {
    var cs := Candidates(all);
    Walk(cs, |cs|).pairs
  }

  /** The grouping done in `fetchTransfers` once the transactions are fetched. */
  method FetchTransferPairs(allTxns: seq<Txn>) returns (pairs: seq<Pair>)
    ensures pairs == ResolvedPairs(allTxns)
  {
    var transferTxns := Candidates(allTxns);
    pairs := [];
    var processed: set<TxId> := {};
    ghost var sources: seq<nat> := [];
    for i := 0 to |transferTxns|
      invariant Walk(transferTxns, i) == Progress(pairs, processed, sources)
    {
      var t := transferTxns[i];
      if t.id in processed {
        continue;
      }
      var partner := FindPartner(transferTxns, t);
      if partner.Some? {
        var p := transferTxns[partner.value];
        pairs := pairs + [Pair(t, p)];
        processed := processed + {t.id, p.id};
        sources := sources + [i];
      }
    }
  }

  /** The two ids a pair marks as processed. */
  function IdsOf(p: Pair): set<TxId> {
    {p.source.id, p.target.id}
  }

  /** Every id that occurs in some pair of `ps`. */
  function Ids(ps: seq<Pair>): set<TxId> {
    set p, id | p in ps && id in IdsOf(p) :: id
  }

  lemma IdsAppend(ps: seq<Pair>, p: Pair)
    ensures Ids(ps + [p]) == Ids(ps) + IdsOf(p)
  {
    forall id | id in Ids(ps + [p]) ensures id in Ids(ps) + IdsOf(p) {
      var q :| q in ps + [p] && id in IdsOf(q);
    }
    forall id | id in IdsOf(p) ensures id in Ids(ps + [p]) {
      assert p in ps + [p];
    }
    forall id | id in Ids(ps) ensures id in Ids(ps + [p]) {
      var q :| q in ps && id in IdsOf(q);
      assert q in ps + [p];
    }
  }

  /** `p.target` is what the search for `p.source`'s partner finds in `cs`. */
  ghost predicate Emitted(cs: seq<Txn>, p: Pair) {
    var k := FindPartner(cs, p.source);
    k.Some? && cs[k.value] == p.target
  }

  /** What holds of the walk's state after `n` candidates. */
  ghost predicate WellFormed(cs: seq<Txn>, n: nat, st: Progress) {
    && |st.sources| == |st.pairs| <= n <= |cs|
    && st.processed == Ids(st.pairs)
    && (forall j :: 0 <= j < |st.pairs| ==>
          && st.sources[j] < n
          && st.pairs[j].source == cs[st.sources[j]]
          && Emitted(cs, st.pairs[j])
          && st.pairs[j].source.id !in Ids(st.pairs[..j]))
    && (forall j, j' :: 0 <= j < j' < |st.pairs| ==> st.sources[j] < st.sources[j'])
  }

  /** Pushing the pair of candidate `n` and its partner `cs[k]` keeps the state
      well formed. */
  lemma PushWellFormed(cs: seq<Txn>, n: nat, st: Progress, k: nat)
    requires n < |cs| && WellFormed(cs, n, st)
    requires cs[n].id !in st.processed && FindPartner(cs, cs[n]) == Some(k)
    ensures WellFormed(cs, n + 1,
      Progress(st.pairs + [Pair(cs[n], cs[k])], st.processed + {cs[n].id, cs[k].id}, st.sources + [n]))
  {
    var p := Pair(cs[n], cs[k]);
    IdsAppend(st.pairs, p);
    PushEntries(cs, n, st, k);
    PushOrdered(st.sources, n);
  }

  /** The entry part of `WellFormed` after a push. */
  lemma PushEntries(cs: seq<Txn>, n: nat, st: Progress, k: nat)
    requires n < |cs| && WellFormed(cs, n, st)
    requires cs[n].id !in st.processed && FindPartner(cs, cs[n]) == Some(k)
    ensures var ps := st.pairs + [Pair(cs[n], cs[k])];
      var ss := st.sources + [n];
      forall j :: 0 <= j < |ps| ==>
        && ss[j] < n + 1
        && ps[j].source == cs[ss[j]]
        && Emitted(cs, ps[j])
        && ps[j].source.id !in Ids(ps[..j])
  {
    var p := Pair(cs[n], cs[k]);
    var ps := st.pairs + [p];
    var ss := st.sources + [n];
    assert Emitted(cs, p);
    assert ps[..|st.pairs|] == st.pairs;
    forall j | 0 <= j < |ps|
      ensures ss[j] < n + 1 && ps[j].source == cs[ss[j]]
      ensures Emitted(cs, ps[j]) && ps[j].source.id !in Ids(ps[..j])
    {
      if j < |st.pairs| {
        AppendKeepsPrefix(st.pairs, st.sources, p, n, j);
      }
    }
  }

  /** Sources stay strictly increasing when a larger one is appended. */
  lemma PushOrdered(ss: seq<nat>, n: nat)
    requires forall j :: 0 <= j < |ss| ==> ss[j] < n
    requires forall j, j' :: 0 <= j < j' < |ss| ==> ss[j] < ss[j']
    ensures forall j, j' :: 0 <= j < j' < |ss + [n]| ==> (ss + [n])[j] < (ss + [n])[j']
  {
  }

  /** Appending leaves the earlier entries and their prefixes as they were. */
  lemma AppendKeepsPrefix(ps: seq<Pair>, ss: seq<nat>, p: Pair, n: nat, j: nat)
    requires j < |ps| && j < |ss|
    ensures (ps + [p])[..j] == ps[..j] && (ps + [p])[j] == ps[j] && (ss + [n])[j] == ss[j]
  {
  }

  /** One visit keeps the walk's state well formed. */
  lemma VisitWellFormed(cs: seq<Txn>, n: nat)
    requires n < |cs| && WellFormed(cs, n, Walk(cs, n))
    ensures WellFormed(cs, n + 1, Walk(cs, n + 1))
  {
    var st := Walk(cs, n);
    assert Walk(cs, n + 1) == Visit(cs, n, st);
    var t := cs[n];
    if t.id !in st.processed && FindPartner(cs, t).Some? {
      PushWellFormed(cs, n, st, FindPartner(cs, t).value);
    }
  }

  lemma {:induction false} WalkWellFormed(cs: seq<Txn>, n: nat)
    requires n <= |cs|
    ensures WellFormed(cs, n, Walk(cs, n))
  {
    if n > 0 {
      WalkWellFormed(cs, n - 1);
      VisitWellFormed(cs, n - 1);
    }
  }

  /** Later states extend earlier ones: pairs are only ever pushed. */
  lemma {:induction false} WalkPrefix(cs: seq<Txn>, m: nat, n: nat)
    requires m <= n <= |cs|
    ensures Walk(cs, m).pairs <= Walk(cs, n).pairs
  {
    if m < n {
      WalkPrefix(cs, m, n - 1);
    }
  }

  /** Both members of every pair pass the transfer filter and come from the
      fetched list: a counterpart that is not flagged as a transfer is never found. */
  lemma PairedRecordsAreTransfers(all: seq<Txn>)
    ensures forall p :: p in ResolvedPairs(all) ==>
      && IsCandidate(p.source) && IsCandidate(p.target)
      && p.source in all && p.target in all
  {
    var cs := Candidates(all);
    WalkWellFormed(cs, |cs|);
    CandidatesMembers(all);
    var ps := ResolvedPairs(all);
    forall p | p in ps ensures IsCandidate(p.source) && IsCandidate(p.target) && p.source in all && p.target in all {
      var j :| 0 <= j < |ps| && ps[j] == p;
      assert Emitted(cs, ps[j]);
    }
  }

  /** Each pair's target carries the id its source links to, and it is the first
      candidate in list order with that id. */
  lemma TargetIsFirstMatch(all: seq<Txn>)
    ensures var cs := Candidates(all);
      forall p :: p in ResolvedPairs(all) ==>
        && p.source.linkedId == Some(p.target.id)
        && FirstWithId(cs, p.target.id).Some?
        && cs[FirstWithId(cs, p.target.id).value] == p.target
  {
    var cs := Candidates(all);
    WalkWellFormed(cs, |cs|);
    var ps := ResolvedPairs(all);
    forall p | p in ps
      ensures p.source.linkedId == Some(p.target.id)
      ensures FirstWithId(cs, p.target.id).Some? && cs[FirstWithId(cs, p.target.id).value] == p.target
    {
      var j :| 0 <= j < |ps| && ps[j] == p;
      assert Emitted(cs, ps[j]);
    }
  }

  /** No pair's source had its id processed by an earlier pair, and when the walk
      ends `processed` holds exactly the ids of the emitted pairs. */
  lemma ProcessedNeverSource(all: seq<Txn>)
    ensures var cs := Candidates(all);
      var st := Walk(cs, |cs|);
      && st.processed == Ids(st.pairs)
      && forall j :: 0 <= j < |st.pairs| ==> st.pairs[j].source.id !in Ids(st.pairs[..j])
  {
    var cs := Candidates(all);
    WalkWellFormed(cs, |cs|);
  }

  /** A candidate whose link matches no candidate id, or whose id is already
      processed, leaves the state untouched. */
  lemma {:induction false} VisitWithoutEffect(cs: seq<Txn>, i: nat, st: Progress)
    requires i < |cs|
    requires cs[i].id in st.processed || forall j :: 0 <= j < |cs| ==> cs[i].linkedId != Some(cs[j].id)
    ensures Visit(cs, i, st) == st
  {
    if cs[i].id !in st.processed {
      assert FindPartner(cs, cs[i]).None?;
    }
  }

  /** A candidate with a dangling link is never a source; when links are mutual
      it is not a target either. */
  lemma DanglingLinkNeverPaired(all: seq<Txn>, t: Txn)
    requires forall j :: 0 <= j < |Candidates(all)| ==> t.linkedId != Some(Candidates(all)[j].id)
    ensures forall p :: p in ResolvedPairs(all) ==> p.source != t
    ensures MutualLinks(Candidates(all)) && t in Candidates(all) ==>
      forall p :: p in ResolvedPairs(all) ==> p.target != t
  {
    var cs := Candidates(all);
    WalkWellFormed(cs, |cs|);
    var ps := ResolvedPairs(all);
    forall p | p in ps ensures p.source != t {
      var j :| 0 <= j < |ps| && ps[j] == p;
      assert Emitted(cs, ps[j]);
    }
    if MutualLinks(cs) && t in cs {
      forall p | p in ps ensures p.target != t {
        var j :| 0 <= j < |ps| && ps[j] == p;
        assert Emitted(cs, ps[j]);
        var s := Walk(cs, |cs|).sources[j];
        var k := FindPartner(cs, p.source).value;
        assert cs[s] == p.source && cs[k] == p.target;
        assert cs[k].linkedId == Some(cs[s].id);
      }
    }
  }

  /** Pairs come out in the order of their sources in the candidate list, at most
      one per candidate. */
  lemma PairsInSourceOrder(all: seq<Txn>)
    ensures var cs := Candidates(all);
      var st := Walk(cs, |cs|);
      && |st.pairs| <= |cs|
      && |st.sources| == |st.pairs|
      && (forall j :: 0 <= j < |st.pairs| ==> st.sources[j] < |cs| && st.pairs[j].source == cs[st.sources[j]])
      && (forall j, j' :: 0 <= j < j' < |st.pairs| ==> st.sources[j] < st.sources[j'])
  {
    var cs := Candidates(all);
    WalkWellFormed(cs, |cs|);
  }

  /** No two candidates share an `_id`. */
  ghost predicate UniqueIds(cs: seq<Txn>) {
    forall i, j :: 0 <= i < |cs| && 0 <= j < |cs| && cs[i].id == cs[j].id ==> i == j
  }

  /** Every link between candidates is answered by a link back. */
  ghost predicate MutualLinks(cs: seq<Txn>) {
    forall i, j :: 0 <= i < |cs| && 0 <= j < |cs| && cs[i].linkedId == Some(cs[j].id) ==>
      cs[j].linkedId == Some(cs[i].id)
  }

  /** No id occurs in two different pairs of `ps`. */
  ghost predicate Disjoint(ps: seq<Pair>) {
    forall j, j' :: 0 <= j < j' < |ps| ==> IdsOf(ps[j]) !! IdsOf(ps[j'])
  }

  /** The part of `WellFormed` the disjointness proof needs. */
  ghost predicate Traced(cs: seq<Txn>, n: nat, st: Progress) {
    && |st.sources| == |st.pairs|
    && st.processed == Ids(st.pairs)
    && (forall j :: 0 <= j < |st.pairs| ==>
          && st.sources[j] < n <= |cs|
          && st.pairs[j].source == cs[st.sources[j]]
          && Emitted(cs, st.pairs[j]))
  }

  lemma WalkTraced(cs: seq<Txn>, n: nat)
    requires n <= |cs|
    ensures Traced(cs, n, Walk(cs, n))
  {
    WalkWellFormed(cs, n);
  }

  /** The partner `cs[k]` found for an unprocessed candidate `cs[i]` shares no
      id with an earlier pair, given unique ids and mutual links. */
  lemma PartnerUnprocessed(cs: seq<Txn>, n: nat, st: Progress, i: nat, k: nat, j: nat)
    requires UniqueIds(cs) && MutualLinks(cs) && Traced(cs, n, st)
    requires i < |cs| && k < |cs| && cs[i].linkedId == Some(cs[k].id)
    requires cs[i].id !in st.processed && j < |st.pairs|
    ensures cs[i].id !in IdsOf(st.pairs[j]) && cs[k].id !in IdsOf(st.pairs[j])
  {
    var q := st.pairs[j];
    assert q in st.pairs;
    assert IdsOf(q) <= Ids(st.pairs);
    assert Emitted(cs, q);
    var s := st.sources[j];
    var kt := FindPartner(cs, q.source).value;
    assert cs[s] == q.source && cs[kt] == q.target;
    assert cs[k].linkedId == Some(cs[i].id);
    assert cs[kt].linkedId == Some(cs[s].id);
    assert cs[k].id != cs[s].id;
    assert cs[k].id != cs[kt].id;
  }

  /** Pushing the pair of an unprocessed candidate `n` and its partner `cs[k]`
      keeps the pairs disjoint. */
  lemma PushDisjoint(cs: seq<Txn>, n: nat, st: Progress, k: nat)
    requires UniqueIds(cs) && MutualLinks(cs) && n < |cs| && Traced(cs, n, st) && Disjoint(st.pairs)
    requires cs[n].id !in st.processed && FindPartner(cs, cs[n]) == Some(k)
    ensures Disjoint(st.pairs + [Pair(cs[n], cs[k])])
  {
    var ps := st.pairs + [Pair(cs[n], cs[k])];
    forall j, j' | 0 <= j < j' < |ps| ensures IdsOf(ps[j]) !! IdsOf(ps[j']) {
      if j' == |st.pairs| {
        PartnerUnprocessed(cs, n, st, n, k, j);
      } else {
        assert ps[j] == st.pairs[j] && ps[j'] == st.pairs[j'];
      }
    }
  }

  /** One more visit keeps the walk's pairs disjoint. */
  lemma VisitDisjoint(cs: seq<Txn>, n: nat)
    requires n < |cs| && UniqueIds(cs) && MutualLinks(cs)
    requires Disjoint(Walk(cs, n).pairs)
    ensures Disjoint(Walk(cs, n + 1).pairs)
  {
    var st := Walk(cs, n);
    assert Walk(cs, n + 1) == Visit(cs, n, st);
    var t := cs[n];
    if t.id !in st.processed && FindPartner(cs, t).Some? {
      WalkTraced(cs, n);
      PushDisjoint(cs, n, st, FindPartner(cs, t).value);
    }
  }

  /** With unique ids and mutual links, no id occurs in two different pairs. */
  lemma {:induction false} WalkDisjoint(cs: seq<Txn>, n: nat)
    requires n <= |cs| && UniqueIds(cs) && MutualLinks(cs)
    ensures Disjoint(Walk(cs, n).pairs)
  {
    if n > 0 {
      WalkDisjoint(cs, n - 1);
      VisitDisjoint(cs, n - 1);
    }
  }

  /** Disjointness of the shown pairs, under unique ids and mutual links. */
  lemma PairsDisjoint(all: seq<Txn>)
    requires UniqueIds(Candidates(all)) && MutualLinks(Candidates(all))
    ensures var ps := ResolvedPairs(all);
      forall j, j' :: 0 <= j < j' < |ps| ==> IdsOf(ps[j]) !! IdsOf(ps[j'])
  {
    var cs := Candidates(all);
    WalkDisjoint(cs, |cs|);
    assert ResolvedPairs(all) == Walk(cs, |cs|).pairs;
  }

  /** Pair `j` of the walk up to `a` involves neither candidate `a` nor its id,
      when `a` links to a later candidate `b`. */
  lemma EarlierPairAvoids(cs: seq<Txn>, a: nat, b: nat, j: nat)
    requires UniqueIds(cs) && MutualLinks(cs)
    requires a < b < |cs| && cs[a].linkedId == Some(cs[b].id)
    requires Traced(cs, a, Walk(cs, a)) && j < |Walk(cs, a).pairs|
    ensures cs[a].id !in IdsOf(Walk(cs, a).pairs[j])
  {
    var st := Walk(cs, a);
    var q := st.pairs[j];
    assert Emitted(cs, q);
    var s := st.sources[j];
    var kt := FindPartner(cs, q.source).value;
    assert cs[s] == q.source && cs[kt] == q.target && s < a;
    assert cs[kt].linkedId == Some(cs[s].id);
  }

  /** When candidate `a` links to a later candidate `b`, the walk reaches `a`
      with its id unprocessed and pushes the pair (`cs[a]`, `cs[b]`). */
  lemma CoupleEmitted(cs: seq<Txn>, a: nat, b: nat)
    requires UniqueIds(cs) && MutualLinks(cs)
    requires a < b < |cs| && cs[a].linkedId == Some(cs[b].id)
    ensures Walk(cs, a + 1).pairs == Walk(cs, a).pairs + [Pair(cs[a], cs[b])]
  {
    WalkTraced(cs, a);
    var st := Walk(cs, a);
    forall q | q in st.pairs ensures cs[a].id !in IdsOf(q) {
      var j :| 0 <= j < |st.pairs| && st.pairs[j] == q;
      EarlierPairAvoids(cs, a, b, j);
    }
    assert cs[a].id !in st.processed;
    assert FindPartner(cs, cs[a]) == Some(b);
  }

  /** With unique ids and mutual links, a linked couple of candidates at indices
      a < b yields exactly one pair, whose source is the earlier one. */
  lemma CoupleResolvedOnce(cs: seq<Txn>, a: nat, b: nat)
    requires UniqueIds(cs) && MutualLinks(cs)
    requires a < b < |cs| && cs[a].linkedId == Some(cs[b].id)
    ensures var ps := Walk(cs, |cs|).pairs;
      exists j :: 0 <= j < |ps| && ps[j] == Pair(cs[a], cs[b]) &&
        forall j' :: 0 <= j' < |ps| && j' != j ==>
          cs[a].id !in IdsOf(ps[j']) && cs[b].id !in IdsOf(ps[j'])
  {
    CoupleEmitted(cs, a, b);
    var j := |Walk(cs, a).pairs|;
    WalkPrefix(cs, a + 1, |cs|);
    WalkDisjoint(cs, |cs|);
    var ps := Walk(cs, |cs|).pairs;
    assert ps[j] == Walk(cs, a + 1).pairs[j] == Pair(cs[a], cs[b]);
    forall j' | 0 <= j' < |ps| && j' != j ensures cs[a].id !in IdsOf(ps[j']) && cs[b].id !in IdsOf(ps[j']) {
      assert IdsOf(ps[j]) !! IdsOf(ps[j']) by {
        if j < j' { } else { }
      }
    }
  }

  /** Without mutual links disjointness fails: with a <-> b already paired, a
      third candidate c linking one-way to b pairs b a second time. */
  lemma OneWayLinkRepeatsTarget()
    ensures var a := Txn("a", true, Some("b"), -5000);
      var b := Txn("b", true, Some("a"), 5000);
      var c := Txn("c", true, Some("b"), -2500);
      ResolvedPairs([a, b, c]) == [Pair(a, b), Pair(c, b)]
  {
    var a := Txn("a", true, Some("b"), -5000);
    var b := Txn("b", true, Some("a"), 5000);
    var c := Txn("c", true, Some("b"), -2500);
    var cs := [a, b, c];
    assert [a][..0] == [];
    assert Candidates([a]) == [a];
    assert [a, b][..1] == [a];
    assert Candidates([a, b]) == [a, b];
    assert cs[..2] == [a, b];
    assert Candidates(cs) == cs;
    assert FindPartner(cs, a) == Some(1);
    assert FindPartner(cs, c) == Some(1);
    assert Walk(cs, 1).pairs == [Pair(a, b)];
    assert Walk(cs, 2) == Walk(cs, 1);
    assert Walk(cs, 3).pairs == [Pair(a, b), Pair(c, b)];
  }

  /** A linked couple followed by a record that is not a transfer: the couple
      gives one pair, its first member as source, and the third record is in
      no pair. */
  lemma CoupleAndNonTransfer()
    ensures var t1 := Txn("1", true, Some("2"), -5000);
      var t2 := Txn("2", true, Some("1"), 5000);
      var t3 := Txn("3", false, None, 0);
      ResolvedPairs([t1, t2, t3]) == [Pair(t1, t2)]
  {
    var t1 := Txn("1", true, Some("2"), -5000);
    var t2 := Txn("2", true, Some("1"), 5000);
    var t3 := Txn("3", false, None, 0);
    var all := [t1, t2, t3];
    assert [t1][..0] == [];
    assert Candidates([t1]) == [t1];
    assert [t1, t2][..1] == [t1];
    assert Candidates([t1, t2]) == [t1, t2];
    assert all[..2] == [t1, t2];
    var cs := Candidates(all);
    assert cs == [t1, t2];
    assert FindPartner(cs, t1) == Some(1);
    assert Walk(cs, 1).pairs == [Pair(t1, t2)];
    assert Walk(cs, 2) == Walk(cs, 1);
  }

  /** The amount in the red (debit) cell: the source's amount when it is
      negative, the target's otherwise. */
  function DebitCell(p: Pair): (r: int)
    ensures r == p.source.amount || r == p.target.amount
    ensures r < 0 ==> p.source.amount < 0 || p.target.amount < 0
  {
    if p.source.amount < 0 then p.source.amount else p.target.amount
  }

  /** The amount in the green (credit) cell: the source's amount when it is
      positive, the target's otherwise. */
  function CreditCell(p: Pair): (r: int)
    ensures r == p.source.amount || r == p.target.amount
    ensures r > 0 ==> p.source.amount > 0 || p.target.amount > 0
  {
    if p.source.amount > 0 then p.source.amount else p.target.amount
  }

  /** For a well-formed transfer (one leg negative, the other positive) the
      debit cell shows the negative leg and the credit cell the positive one,
      whichever of the two is the source. */
  lemma OppositeLegsShownBySign(p: Pair)
    requires (p.source.amount < 0 && p.target.amount > 0) || (p.source.amount > 0 && p.target.amount < 0)
    ensures DebitCell(p) < 0 && CreditCell(p) > 0
    ensures multiset{DebitCell(p), CreditCell(p)} == multiset{p.source.amount, p.target.amount}
  {
  }

  /** A zero source amount shows the target's amount in both cells. */
  lemma ZeroSourceShowsTargetTwice(p: Pair)
    requires p.source.amount == 0
    ensures DebitCell(p) == p.target.amount && CreditCell(p) == p.target.amount
  {
  }

  /** When both legs have the same sign, one cell shows the source and the other
      the target: the source in the debit cell when both are negative, in the
      credit cell when both are positive. */
  lemma SameSignLegs(p: Pair)
    ensures p.source.amount < 0 && p.target.amount < 0 ==>
      DebitCell(p) == p.source.amount && CreditCell(p) == p.target.amount
    ensures p.source.amount > 0 && p.target.amount > 0 ==>
      DebitCell(p) == p.target.amount && CreditCell(p) == p.source.amount
  {
  }
}
