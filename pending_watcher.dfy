/**
 * The pending-transaction watcher of the wallet: whenever the first
 * transaction of the account feed, the account-lite snapshot or the wallet
 * snapshot changes, it checks that the feed and the wallet snapshot describe
 * the same sync point and, if so, marks every locally pending transaction
 * whose seqno lies below the wallet's seqno as sent.
 */
module PendingWatcher {
  import opened Wrappers

  /**
   * Status of a locally submitted transaction: the strings 'pending' and
   * 'sent' are Pending and Sent; Other carries any further status string,
   * which is never 'pending' or 'sent' (see ValidStatus).
   */
  datatype Status = Pending | Sent | Other(name: string)

  /** Each status string has one spelling. */
  predicate ValidStatus(s: Status) {
    s.Other? ==> s.name != "pending" && s.name != "sent"
  }

  /**
   * A locally submitted transaction. `details` stands for the remaining
   * submission fields, which the watcher copies unchanged.
   */
  datatype PendingTx = PendingTx(seqno: int, status: Status, details: map<string, string>)

  /**
   * What the effect observes. Every part may be missing while its query is
   * still loading: the hash of the first feed transaction, the lite
   * snapshot's last hash and block, and the wallet snapshot's seqno and last
   * synced block.
   */
  datatype Snapshot = Snapshot(
    firstTxHash: Option<string>,
    liteLastHash: Option<string>,
    liteBlock: Option<int>,
    walletSeqno: Option<int>,
    walletLast: Option<int>)

  /** JavaScript's `x || 0` on an optional number. */
  function OrZero(x: Option<int>): (r: int)
    ensures x.None? ==> r == 0
    ensures x.Some? ==> r == x.value
  {
    x.GetOr(0)
  }

  /**
   * Feed and wallet snapshot refer to the same sync point: equal hashes
   * (two missing hashes compare equal under `===`) and the wallet's last
   * block not behind the lite block.
   */
  predicate InSync(obs: Snapshot): (b: bool)
    ensures obs.firstTxHash != obs.liteLastHash ==> !b
    ensures OrZero(obs.walletLast) < OrZero(obs.liteBlock) ==> !b
    ensures obs.firstTxHash == obs.liteLastHash && obs.liteBlock.None? && obs.walletLast.None? ==> b
    ensures obs.firstTxHash == obs.liteLastHash && OrZero(obs.walletLast) >= OrZero(obs.liteBlock) ==> b
  {
    obs.firstTxHash == obs.liteLastHash && OrZero(obs.walletLast) >= OrZero(obs.liteBlock)
  }

  /** The wallet seqno is truthy: present and not 0. */
  predicate SeqnoReady(obs: Snapshot): (b: bool)
    ensures obs.walletSeqno.None? ==> !b
    ensures obs.walletSeqno == Some(0) ==> !b
    ensures obs.walletSeqno.Some? && obs.walletSeqno.value != 0 ==> b
  {
    obs.walletSeqno.Some? && obs.walletSeqno.value != 0
  }

  /**
   * Whether the effect calls the store's updater, and with which wallet
   * seqno; None when it returns early.
   */
  function Decide(obs: Snapshot): (d: Option<int>)
    ensures d.Some? <==> InSync(obs) && SeqnoReady(obs)
    ensures d.Some? ==> obs.walletSeqno == d && d.value != 0
  {
    if !InSync(obs) then None
    else if !SeqnoReady(obs) then None
    else obs.walletSeqno
  }

  /** One entry of the `map` callback. */
  function Settle(a: PendingTx, seqno: int): (r: PendingTx)
    ensures r.seqno == a.seqno && r.details == a.details
    ensures a.seqno < seqno ==> r.status == Sent
    ensures a.seqno >= seqno ==> r == a
    ensures a.status == Sent ==> r.status == Sent
  {
    if a.seqno < seqno then a.(status := Sent) else a
  }

  /** The list after marking, entry by entry, what the wallet seqno has passed. */
  function MarkSent(prev: seq<PendingTx>, seqno: int): (r: seq<PendingTx>)
    ensures |r| == |prev|
    ensures forall i :: 0 <= i < |prev| ==>
      r[i].seqno == prev[i].seqno && r[i].details == prev[i].details
    ensures forall i :: 0 <= i < |prev| ==>
      r[i].status == (if prev[i].seqno < seqno then Sent else prev[i].status)
  {
    if prev == [] then [] else [Settle(prev[0], seqno)] + MarkSent(prev[1..], seqno)
  }

  /** The updater passed to the store: an empty list is handed back as it is. */
  function Update(prev: seq<PendingTx>, seqno: int): (r: seq<PendingTx>)
    ensures |prev| == 0 ==> r == prev
    ensures |r| == |prev|
    ensures forall i :: 0 <= i < |prev| && prev[i].seqno >= seqno ==> r[i] == prev[i]
    ensures forall i :: 0 <= i < |prev| && prev[i].seqno < seqno ==> r[i] == prev[i].(status := Sent)
  {
    if |prev| == 0 then prev else MarkSent(prev, seqno)
  }

  /** The account's pending list after one run of the effect. */
  function Reconcile(prev: seq<PendingTx>, obs: Snapshot): (r: seq<PendingTx>)
    ensures !InSync(obs) ==> r == prev
    ensures !SeqnoReady(obs) ==> r == prev
    ensures |r| == |prev|
    ensures forall i :: 0 <= i < |prev| ==>
      r[i].seqno == prev[i].seqno && r[i].details == prev[i].details
    ensures forall i :: 0 <= i < |prev| ==>
      r[i].status == (if Decide(obs).Some? && prev[i].seqno < Decide(obs).value then Sent else prev[i].status)
    ensures forall i :: 0 <= i < |prev| && ValidStatus(prev[i].status) ==> ValidStatus(r[i].status)
  {
    match Decide(obs)
    case None => prev
    case Some(seqno) => Update(prev, seqno)
  }

  /** The store key of the selected account: its address, or '' when none is selected. */
  function AccountKey(account: Option<string>): (key: string)
    ensures account.Some? ==> key == account.value
    ensures account.None? ==> key == ""
  {
    account.GetOr("")
  }

  /** Marking twice with the same seqno is marking once. */
  lemma {:induction false} MarkSentIdempotent(prev: seq<PendingTx>, seqno: int)
    ensures MarkSent(MarkSent(prev, seqno), seqno) == MarkSent(prev, seqno)
  {
    if prev != [] {
      MarkSentIdempotent(prev[1..], seqno);
    }
  }

  /** Marking with s1 and then with s2 is marking once with the larger seqno. */
  lemma {:induction false} MarkSentCompose(prev: seq<PendingTx>, s1: int, s2: int)
    ensures MarkSent(MarkSent(prev, s1), s2) == MarkSent(prev, if s1 < s2 then s2 else s1)
  {
    if prev != [] {
      MarkSentCompose(prev[1..], s1, s2);
    }
  }

  /** Running the effect twice on the same observations changes nothing the first run did not. */
  lemma ReconcileIdempotent(prev: seq<PendingTx>, obs: Snapshot)
    ensures Reconcile(Reconcile(prev, obs), obs) == Reconcile(prev, obs)
  {
    match Decide(obs)
    case None =>
    case Some(seqno) =>
      if prev != [] {
        MarkSentIdempotent(prev, seqno);
      }
  }

  /** The list after the effect has run once for each observation, in order. */
  function ReconcileAll(prev: seq<PendingTx>, runs: seq<Snapshot>): (r: seq<PendingTx>)
    ensures |r| == |prev|
    decreases |runs|
  {
    if runs == [] then prev else ReconcileAll(Reconcile(prev, runs[0]), runs[1..])
  }

  /**
   * Over any sequence of runs the list keeps its length, its seqnos and its
   * other fields, and an entry that is sent stays sent.
   */
  lemma {:induction false} NeverUnsends(prev: seq<PendingTx>, runs: seq<Snapshot>)
    ensures |ReconcileAll(prev, runs)| == |prev|
    ensures forall i :: 0 <= i < |prev| ==>
      ReconcileAll(prev, runs)[i].seqno == prev[i].seqno &&
      ReconcileAll(prev, runs)[i].details == prev[i].details
    ensures forall i :: 0 <= i < |prev| && prev[i].status == Sent ==>
      ReconcileAll(prev, runs)[i].status == Sent
    decreases |runs|
  {
    if runs != [] {
      NeverUnsends(Reconcile(prev, runs[0]), runs[1..]);
    }
  }

  /**
   * A sent entry after any sequence of runs was either sent already or
   * passed by the seqno of some run whose gates were open.
   */
  lemma {:induction false} SentOnlyWhenSynced(prev: seq<PendingTx>, runs: seq<Snapshot>, i: int)
    requires 0 <= i < |prev|
    requires ReconcileAll(prev, runs)[i].status == Sent
    ensures prev[i].status == Sent ||
      exists k :: 0 <= k < |runs| && InSync(runs[k]) && SeqnoReady(runs[k]) &&
        prev[i].seqno < runs[k].walletSeqno.value
    decreases |runs|
  {
    NeverUnsends(prev, runs);
    if runs != [] {
      var next := Reconcile(prev, runs[0]);
      SentOnlyWhenSynced(next, runs[1..], i);
      if next[i].status != Sent {
        var k :| 0 <= k < |runs[1..]| && InSync(runs[1..][k]) && SeqnoReady(runs[1..][k]) &&
          next[i].seqno < runs[1..][k].walletSeqno.value;
        assert runs[k + 1] == runs[1..][k];
      } else if prev[i].status != Sent {
        assert InSync(runs[0]) && SeqnoReady(runs[0]);
      }
    }
  }

  /** The two worked examples: in sync marks seqno 5 only; out of sync keeps the list. */
  lemma ExampleReconcile(d: map<string, string>)
    ensures var prev := [PendingTx(5, Pending, d), PendingTx(7, Pending, d)];
      var synced := Snapshot(Some("h"), Some("h"), Some(10), Some(6), Some(10));
      var stale := Snapshot(Some("h"), Some("g"), Some(10), Some(6), Some(10));
      Reconcile(prev, synced) == [PendingTx(5, Sent, d), PendingTx(7, Pending, d)] &&
      Reconcile(prev, stale) == prev
  {
    var prev := [PendingTx(5, Pending, d), PendingTx(7, Pending, d)];
    var r := Reconcile(prev, Snapshot(Some("h"), Some("h"), Some(10), Some(6), Some(10)));
    assert r[0] == PendingTx(5, Sent, d);
    assert r[1] == PendingTx(7, Pending, d);
  }

  /** The process-wide store of pending lists, keyed by account address. */
  class PendingStore {
    var slots: map<string, seq<PendingTx>>

    constructor ()
      ensures slots == map[]
    {
      slots := map[];
    }

    /** The list of one account; an account never written holds the empty list. */
    function Get(key: string): (r: seq<PendingTx>)
      reads this
      ensures key in slots ==> r == slots[key]
      ensures key !in slots ==> r == []
    {
      if key in slots then slots[key] else []
    }

    /**
     * One run of the watcher's effect for the selected account: when the
     * gates are open the account's slot is replaced by the updated list; no
     * other slot is touched, and when a gate is closed nothing is written.
     */
    method Watch(account: Option<string>, obs: Snapshot)
      modifies this
      ensures Decide(obs).None? ==> slots == old(slots)
      ensures Decide(obs).Some? ==>
        slots == old(slots)[AccountKey(account) := Update(old(Get(AccountKey(account))), Decide(obs).value)]
      ensures Get(AccountKey(account)) == Reconcile(old(Get(AccountKey(account))), obs)
      ensures forall k :: k != AccountKey(account) ==> Get(k) == old(Get(k))
    {
      var key := AccountKey(account);
      if !InSync(obs) {
        return;
      }
      if !SeqnoReady(obs) {
        return;
      }
      var seqno := obs.walletSeqno.value;
      var prev := Get(key);
      slots := slots[key := Update(prev, seqno)];
    }
  }
}
