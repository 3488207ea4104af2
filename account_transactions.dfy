/**
 * The transaction-history aggregator: it flattens the loaded pages of raw
 * account transactions, collects the addresses they mention, joins each
 * transaction with the contract metadata of its counterparty and with the
 * jetton-master content that metadata points to, and exposes the paging
 * controls of the underlying query.
 */
module AccountTransactions {
  import opened Wrappers

  /** JavaScript truthiness of a string: only '' is falsy. */
  predicate Truthy(s: string): (b: bool)
    ensures b <==> |s| > 0
  {
    s != ""
  }

  // ---------------------------------------------------------------------
  // Stored contract metadata and the jetton-master address it points to
  // ---------------------------------------------------------------------

  datatype StoredJettonMaster = StoredJettonMaster(
    content: map<string, string>, mintable: bool, owner: Option<string>, totalSupply: string)

  datatype StoredJettonWallet = StoredJettonWallet(balance: string, master: string, owner: string)

  /** Metadata of one contract, as cached; `address` is the contract's own address. */
  datatype StoredContractMetadata = StoredContractMetadata(
    address: string,
    jettonMaster: Option<StoredJettonMaster>,
    jettonWallet: Option<StoredJettonWallet>,
    seqno: Option<int>)

  /**
   * The jetton-master address of a contract: its own address when it is a
   * jetton master; otherwise its wallet's master when that is a non-empty
   * string; otherwise null.
   */
  function JettonMasterAddress(metadata: Option<StoredContractMetadata>): (r: Option<string>)
    ensures metadata.None? ==> r.None?
    ensures metadata.Some? && metadata.value.jettonMaster.Some? ==> r == Some(metadata.value.address)
    ensures metadata.Some? && metadata.value.jettonMaster.None? ==>
      r == (if metadata.value.jettonWallet.Some? && Truthy(metadata.value.jettonWallet.value.master)
            then Some(metadata.value.jettonWallet.value.master) else None)
  {
    match metadata
    case None => None
    case Some(m) =>
      if m.jettonMaster.Some? then Some(m.address)
      else if m.jettonWallet.Some? && Truthy(m.jettonWallet.value.master) then Some(m.jettonWallet.value.master)
      else None
  }

  /** A jetton master's address wins over any wallet information on the same record. */
  lemma MasterWinsOverWallet(m: StoredContractMetadata, w: StoredJettonWallet)
    requires m.jettonMaster.Some?
    ensures JettonMasterAddress(Some(m.(jettonWallet := Some(w)))) == Some(m.address)
  {
  }

  /** A non-null result is the record's own address or its wallet's master, never ''. */
  lemma JettonMasterAddressOrigin(m: StoredContractMetadata)
    ensures var r := JettonMasterAddress(Some(m));
      r.Some? ==> (r.value == m.address && m.jettonMaster.Some?) ||
                  (m.jettonWallet.Some? && r.value == m.jettonWallet.value.master && Truthy(r.value))
    ensures JettonMasterAddress(Some(m)).None? <==>
      m.jettonMaster.None? && (m.jettonWallet.None? || !Truthy(m.jettonWallet.value.master))
  {
  }

  // ---------------------------------------------------------------------
  // Raw transactions, flattening and the mentioned addresses
  // ---------------------------------------------------------------------

  /** What the parser extracted from a raw transaction. */
  datatype Parsed = Parsed(resolvedAddress: string, mentioned: seq<string>)

  /** A raw account transaction: logical time and hash as strings, and its parsed view. */
  datatype RawTx = RawTx(lt: string, hash: string, parsed: Parsed)

  /** `pages.flat()`: the pages concatenated in order. */
  function Flatten(pages: seq<seq<RawTx>>): (r: seq<RawTx>)
    ensures |pages| == 0 ==> r == []
    ensures |pages| == 1 ==> r == pages[0]
    ensures forall tx :: tx in r <==> exists p :: 0 <= p < |pages| && tx in pages[p]
    decreases |pages|
  {
    if pages == [] then [] else pages[0] + Flatten(pages[1..])
  }

  /** Flattening distributes over appending pages, so later pages come later. */
  lemma {:induction false} FlattenAppend(a: seq<seq<RawTx>>, b: seq<seq<RawTx>>)
    ensures Flatten(a + b) == Flatten(a) + Flatten(b)
    decreases |a|
  {
    if a == [] {
      assert a + b == b;
    } else {
      FlattenAppend(a[1..], b);
      assert (a + b)[0] == a[0];
      assert (a + b)[1..] == a[1..] + b;
      assert a[0] + (Flatten(a[1..]) + Flatten(b)) == (a[0] + Flatten(a[1..])) + Flatten(b);
    }
  }

  /** All mentioned addresses, transaction by transaction (the `flatMap`). */
  function AllMentioned(txs: seq<RawTx>): (r: seq<string>)
    ensures forall x :: x in r <==> exists i :: 0 <= i < |txs| && x in txs[i].parsed.mentioned
    decreases |txs|
  {
    if txs == [] then [] else txs[0].parsed.mentioned + AllMentioned(txs[1..])
  }

  /** No address occurs twice. */
  predicate Distinct(s: seq<string>) {
    forall i, j :: 0 <= i < j < |s| ==> s[i] != s[j]
  }

  /** `Array.from(new Set(s))`: the first occurrence of each element, in order. */
  function Dedup(s: seq<string>): (r: seq<string>)
    ensures Distinct(r)
    ensures forall x :: x in r <==> x in s
    decreases |s|
  {
    if s == [] then []
    else
      var d := Dedup(s[..|s| - 1]);
      if s[|s| - 1] in d then d else d + [s[|s| - 1]]
  }

  /** Index of the first occurrence of `x` in `s`. */
  function FirstIndex(s: seq<string>, x: string): (k: nat)
    requires x in s
    ensures k < |s| && s[k] == x && x !in s[..k]
    decreases |s|
  {
    if s[0] == x then 0
    else
      var k := FirstIndex(s[1..], x) + 1;
      assert s[..k] == [s[0]] + s[1..][..k - 1];
      k
  }

  /** The first occurrence of an element of a prefix lies in that prefix. */
  lemma FirstIndexPrefix(s: seq<string>, n: nat, x: string)
    requires n <= |s| && x in s[..n]
    ensures FirstIndex(s, x) == FirstIndex(s[..n], x)
  {
    var k := FirstIndex(s[..n], x);
    assert s[..n][..k] == s[..k];
  }

  /** Dedup keeps the order of first occurrences. */
  lemma {:induction false} DedupOrder(s: seq<string>, i: int, j: int)
    requires 0 <= i < j < |Dedup(s)|
    ensures FirstIndex(s, Dedup(s)[i]) < FirstIndex(s, Dedup(s)[j])
    decreases |s|
  {
    var p := s[..|s| - 1];
    var d := Dedup(p);
    var last := s[|s| - 1];
    assert s == p + [last];
    if last in d {
      DedupOrder(p, i, j);
      FirstIndexPrefix(s, |p|, d[i]);
      FirstIndexPrefix(s, |p|, d[j]);
    } else if j < |d| {
      DedupOrder(p, i, j);
      FirstIndexPrefix(s, |p|, d[i]);
      FirstIndexPrefix(s, |p|, d[j]);
    } else {
      assert Dedup(s)[j] == last && last !in p;
      assert Dedup(s)[i] == d[i] && d[i] in p;
      FirstIndexPrefix(s, |p|, d[i]);
      assert s[..FirstIndex(s, last)] <= p;
    }
  }

  /** The loaded transactions, or null while the query has no data. */
  function BaseTxs(data: Option<seq<seq<RawTx>>>): (r: Option<seq<RawTx>>)
    ensures r.None? <==> data.None?
    ensures r.Some? ==> forall tx :: tx in r.value <==> exists p :: 0 <= p < |data.value| && tx in data.value[p]
  {
    match data
    case None => None
    case Some(pages) => Some(Flatten(pages))
  }

  /**
   * The addresses whose metadata is requested: every address mentioned by a
   * loaded transaction, each once; none while there is no data.
   */
  function Mentioned(baseTxs: Option<seq<RawTx>>): (r: seq<string>)
    ensures baseTxs.None? ==> r == []
    ensures baseTxs.Some? ==> forall x :: x in r <==>
      exists i :: 0 <= i < |baseTxs.value| && x in baseTxs.value[i].parsed.mentioned
    ensures Distinct(r)
  {
    match baseTxs
    case None => []
    case Some(txs) => Dedup(AllMentioned(txs))
  }

  // ---------------------------------------------------------------------
  // The metadata map and the jetton masters to resolve
  // ---------------------------------------------------------------------

  /** A map entry: the parsed metadata and the jetton-master address of the record. */
  datatype MetadataEntry<M> = MetadataEntry(metadata: M, jettonMasterAddress: Option<string>)

  /** The entry the build loop stores for a record. */
  function EntryOf<M>(d: StoredContractMetadata, parse: StoredContractMetadata -> M): (e: MetadataEntry<M>)
    ensures e.metadata == parse(d)
    ensures d.jettonMaster.Some? ==> e.jettonMasterAddress == Some(d.address)
    ensures e.jettonMasterAddress.Some? ==> (e.jettonMasterAddress.value == d.address ||
      (d.jettonWallet.Some? && e.jettonMasterAddress.value == d.jettonWallet.value.master))
    ensures d.jettonMaster.None? && d.jettonWallet.Some? && Truthy(d.jettonWallet.value.master) ==>
      e.jettonMasterAddress == Some(d.jettonWallet.value.master)
    ensures d.jettonMaster.None? && (d.jettonWallet.None? || !Truthy(d.jettonWallet.value.master)) ==>
      e.jettonMasterAddress.None?
  {
    MetadataEntry(parse(d), JettonMasterAddress(Some(d)))
  }

  /** The map after the loop has visited `ms` (null records are skipped; later ones overwrite). */
  function MetadatasMap<M>(ms: seq<Option<StoredContractMetadata>>, parse: StoredContractMetadata -> M):
    (r: map<string, MetadataEntry<M>>)
    ensures forall a :: a in r ==> exists i :: (0 <= i < |ms| && ms[i].Some? && ms[i].value.address == a &&
      r[a] == EntryOf(ms[i].value, parse))
    decreases |ms|
  {
    if ms == [] then map[]
    else
      var p := ms[..|ms| - 1];
      var m := MetadatasMap(p, parse);
      assert forall i :: 0 <= i < |p| ==> p[i] == ms[i];
      match ms[|ms| - 1]
      case None => m
      case Some(d) => m[d.address := EntryOf(d, parse)]
  }

  /** The jetton masters the loop has collected after visiting `ms`, in order. */
  function JettonMasters(ms: seq<Option<StoredContractMetadata>>): (r: seq<string>)
    ensures |r| <= |ms|
    ensures forall k :: 0 <= k < |r| ==> Truthy(r[k])
    decreases |ms|
  {
    if ms == [] then []
    else
      var js := JettonMasters(ms[..|ms| - 1]);
      var a := JettonMasterAddress(ms[|ms| - 1]);
      if a.Some? && Truthy(a.value) then js + [a.value] else js
  }

  /** The map has a key for exactly the addresses of the non-null records. */
  lemma {:induction false} MetadatasMapKeys<M>(ms: seq<Option<StoredContractMetadata>>, parse: StoredContractMetadata -> M)
    ensures forall a :: a in MetadatasMap(ms, parse) <==>
      exists i :: 0 <= i < |ms| && ms[i].Some? && ms[i].value.address == a
    decreases |ms|
  {
    if ms != [] {
      var p := ms[..|ms| - 1];
      MetadatasMapKeys(p, parse);
      forall a | a in MetadatasMap(ms, parse)
        ensures exists i :: 0 <= i < |ms| && ms[i].Some? && ms[i].value.address == a
      {
        if a in MetadatasMap(p, parse) {
          var i :| 0 <= i < |p| && p[i].Some? && p[i].value.address == a;
          assert ms[i] == p[i];
        } else {
          assert ms[|ms| - 1].Some? && ms[|ms| - 1].value.address == a;
        }
      }
      forall a | exists i :: 0 <= i < |ms| && ms[i].Some? && ms[i].value.address == a
        ensures a in MetadatasMap(ms, parse)
      {
        var i :| 0 <= i < |ms| && ms[i].Some? && ms[i].value.address == a;
        if i < |p| {
          assert p[i] == ms[i];
        }
      }
    }
  }

  /** For each address, the last non-null record with that address is the one stored. */
  lemma {:induction false} MetadatasMapLastWins<M>(ms: seq<Option<StoredContractMetadata>>, parse: StoredContractMetadata -> M, i: int)
    requires 0 <= i < |ms| && ms[i].Some?
    requires forall j :: i < j < |ms| && ms[j].Some? ==> ms[j].value.address != ms[i].value.address
    ensures ms[i].value.address in MetadatasMap(ms, parse)
    ensures MetadatasMap(ms, parse)[ms[i].value.address] == EntryOf(ms[i].value, parse)
    decreases |ms|
  {
    if i < |ms| - 1 {
      var p := ms[..|ms| - 1];
      assert p[i] == ms[i];
      MetadatasMapLastWins(p, parse, i);
    }
  }

  /** Every jetton master collected is a non-empty jetton-master address of some record, and every such address is collected. */
  lemma {:induction false} JettonMastersContents(ms: seq<Option<StoredContractMetadata>>)
    ensures forall x :: x in JettonMasters(ms) <==>
      exists i :: 0 <= i < |ms| && JettonMasterAddress(ms[i]) == Some(x) && Truthy(x)
    decreases |ms|
  {
    if ms != [] {
      var p := ms[..|ms| - 1];
      JettonMastersContents(p);
      forall x | x in JettonMasters(ms)
        ensures exists i :: 0 <= i < |ms| && JettonMasterAddress(ms[i]) == Some(x) && Truthy(x)
      {
        if x in JettonMasters(p) {
          var i :| 0 <= i < |p| && JettonMasterAddress(p[i]) == Some(x) && Truthy(x);
          assert ms[i] == p[i];
        }
      }
      forall x | exists i :: 0 <= i < |ms| && JettonMasterAddress(ms[i]) == Some(x) && Truthy(x)
        ensures x in JettonMasters(ms)
      {
        var i :| 0 <= i < |ms| && JettonMasterAddress(ms[i]) == Some(x) && Truthy(x);
        if i < |p| {
          assert p[i] == ms[i];
        }
      }
    }
  }

  /** Collecting over two runs of records keeps their order: those of the first come first. */
  lemma {:induction false} JettonMastersAppend(a: seq<Option<StoredContractMetadata>>, b: seq<Option<StoredContractMetadata>>)
    ensures JettonMasters(a + b) == JettonMasters(a) + JettonMasters(b)
    decreases |b|
  {
    if b == [] {
      assert a + b == a;
    } else {
      var b' := b[..|b| - 1];
      JettonMastersAppend(a, b');
      assert (a + b)[..|a + b| - 1] == a + b';
      assert (a + b)[|a + b| - 1] == b[|b| - 1];
    }
  }

  /** Whatever jetton master the map records for a counterparty is one whose content is requested. */
  lemma {:induction false} MapMastersRequested<M>(ms: seq<Option<StoredContractMetadata>>, parse: StoredContractMetadata -> M, a: string)
    requires a in MetadatasMap(ms, parse)
    requires MetadatasMap(ms, parse)[a].jettonMasterAddress.Some?
    requires Truthy(MetadatasMap(ms, parse)[a].jettonMasterAddress.value)
    ensures MetadatasMap(ms, parse)[a].jettonMasterAddress.value in JettonMasters(ms)
    decreases |ms|
  {
    var p := ms[..|ms| - 1];
    JettonMastersAppend(p, [ms[|ms| - 1]]);
    assert p + [ms[|ms| - 1]] == ms;
    if ms[|ms| - 1].None? || ms[|ms| - 1].value.address != a {
      MapMastersRequested(p, parse, a);
    } else {
      assert [ms[|ms| - 1]][..0] == [];
    }
  }

  /**
   * The build loop: for each non-null record, store its entry under its
   * address and collect its jetton-master address when that is non-empty.
   */
  method BuildMetadatas<M>(metadatas: seq<Option<StoredContractMetadata>>, parse: StoredContractMetadata -> M)
    returns (metadatasMap: map<string, MetadataEntry<M>>, jettonMasters: seq<string>)
    ensures metadatasMap == MetadatasMap(metadatas, parse)
    ensures jettonMasters == JettonMasters(metadatas)
  {
    metadatasMap := map[];
    jettonMasters := [];
    var i := 0;
    while i < |metadatas|
      invariant 0 <= i <= |metadatas|
      invariant metadatasMap == MetadatasMap(metadatas[..i], parse)
      invariant jettonMasters == JettonMasters(metadatas[..i])
    {
      assert metadatas[..i + 1][..i] == metadatas[..i];
      var m := metadatas[i];
      if m.Some? {
        var jettonAddress := JettonMasterAddress(m);
        metadatasMap := metadatasMap[m.value.address := MetadataEntry(parse(m.value), jettonAddress)];
        if jettonAddress.Some? && Truthy(jettonAddress.value) {
          jettonMasters := jettonMasters + [jettonAddress.value];
        }
      }
      i := i + 1;
    }
    assert metadatas[..i] == metadatas;
  }

  // ---------------------------------------------------------------------
  // Projection into transaction descriptions
  // ---------------------------------------------------------------------

  datatype JettonImage = JettonImage(preview256: Option<string>)

  /** Resolved content of a jetton master; only the fields the join reads are kept. */
  datatype JettonContent = JettonContent(address: string, image: Option<JettonImage>)

  /** A display-ready transaction. */
  datatype TransactionDescription<M> = TransactionDescription(
    id: string,
    base: RawTx,
    icon: Option<string>,
    masterMetadata: Option<JettonContent>,
    metadata: Option<M>,
    verified: Option<bool>,
    op: Option<string>,
    title: Option<string>)

  /** `find` over the resolved contents: the first present one with the given address. */
  function FindContent(contents: seq<Option<JettonContent>>, address: string): (r: Option<JettonContent>)
    ensures r.None? <==> forall i :: 0 <= i < |contents| && contents[i].Some? ==> contents[i].value.address != address
    ensures r.Some? ==> exists i :: (0 <= i < |contents| && contents[i] == r && r.value.address == address &&
      forall j :: 0 <= j < i && contents[j].Some? ==> contents[j].value.address != address)
    decreases |contents|
  {
    if contents == [] then None
    else if contents[0].Some? && contents[0].value.address == address then contents[0]
    else
      var r := FindContent(contents[1..], address);
      assert forall i :: 0 < i < |contents| ==> contents[i] == contents[1..][i - 1];
      r
  }

  /** `find` stops at the first present content with the address. */
  lemma {:induction false} FindContentFirst(contents: seq<Option<JettonContent>>, k: int)
    requires 0 <= k < |contents| && contents[k].Some?
    requires forall j :: 0 <= j < k && contents[j].Some? ==> contents[j].value.address != contents[k].value.address
    ensures FindContent(contents, contents[k].value.address) == contents[k]
    decreases k
  {
    if k > 0 {
      FindContentFirst(contents[1..], k - 1);
    }
  }

  /** The jetton content of a transaction's counterparty, if any. */
  function MasterContentOf<M>(base: RawTx, metadatasMap: map<string, MetadataEntry<M>>,
                              contents: seq<Option<JettonContent>>): (r: Option<JettonContent>)
    ensures base.parsed.resolvedAddress !in metadatasMap ==> r.None?
    ensures r.Some? ==> (base.parsed.resolvedAddress in metadatasMap &&
      metadatasMap[base.parsed.resolvedAddress].jettonMasterAddress.Some? &&
      r.value.address == metadatasMap[base.parsed.resolvedAddress].jettonMasterAddress.value &&
      r in contents)
    ensures (base.parsed.resolvedAddress in metadatasMap &&
      metadatasMap[base.parsed.resolvedAddress].jettonMasterAddress.Some? &&
      Truthy(metadatasMap[base.parsed.resolvedAddress].jettonMasterAddress.value)) ==>
      r == FindContent(contents, metadatasMap[base.parsed.resolvedAddress].jettonMasterAddress.value)
    ensures (base.parsed.resolvedAddress in metadatasMap &&
      (metadatasMap[base.parsed.resolvedAddress].jettonMasterAddress.None? ||
       !Truthy(metadatasMap[base.parsed.resolvedAddress].jettonMasterAddress.value))) ==> r.None?
  {
    var entry := if base.parsed.resolvedAddress in metadatasMap then Some(metadatasMap[base.parsed.resolvedAddress]) else None;
    var master := if entry.Some? then entry.value.jettonMasterAddress else None;
    if master.Some? && Truthy(master.value) then FindContent(contents, master.value) else None
  }

  /** Projection of one raw transaction. */
  function Describe<M>(base: RawTx, metadatasMap: map<string, MetadataEntry<M>>,
                       contents: seq<Option<JettonContent>>): (t: TransactionDescription<M>)
    ensures t.base == base && t.id == base.lt + "_" + base.hash
    ensures t.verified.None? && t.op.None? && t.title.None?
    ensures t.metadata.None? <==> base.parsed.resolvedAddress !in metadatasMap
    ensures t.metadata.Some? ==> t.metadata.value == metadatasMap[base.parsed.resolvedAddress].metadata
    ensures t.masterMetadata.None? <==>
      base.parsed.resolvedAddress !in metadatasMap ||
      metadatasMap[base.parsed.resolvedAddress].jettonMasterAddress.None? ||
      !Truthy(metadatasMap[base.parsed.resolvedAddress].jettonMasterAddress.value) ||
      forall i :: 0 <= i < |contents| && contents[i].Some? ==>
        contents[i].value.address != metadatasMap[base.parsed.resolvedAddress].jettonMasterAddress.value
    ensures t.masterMetadata.Some? ==>
      t.masterMetadata.value.address == metadatasMap[base.parsed.resolvedAddress].jettonMasterAddress.value &&
      t.masterMetadata in contents
    ensures (base.parsed.resolvedAddress in metadatasMap &&
      metadatasMap[base.parsed.resolvedAddress].jettonMasterAddress.Some? &&
      Truthy(metadatasMap[base.parsed.resolvedAddress].jettonMasterAddress.value)) ==>
      t.masterMetadata == FindContent(contents, metadatasMap[base.parsed.resolvedAddress].jettonMasterAddress.value)
    ensures t.icon.Some? <==>
      t.masterMetadata.Some? && t.masterMetadata.value.image.Some? && t.masterMetadata.value.image.value.preview256.Some?
    ensures t.icon.Some? ==> t.icon == t.masterMetadata.value.image.value.preview256
  {
    var entry := if base.parsed.resolvedAddress in metadatasMap then Some(metadatasMap[base.parsed.resolvedAddress]) else None;
    var master := MasterContentOf(base, metadatasMap, contents);
    TransactionDescription(
      base.lt + "_" + base.hash,
      base,
      if master.Some? && master.value.image.Some? then master.value.image.value.preview256 else None,
      master,
      if entry.Some? then Some(entry.value.metadata) else None,
      None, None, None)
  }

  /** The `map` over the loaded transactions. */
  function Project<M>(txs: seq<RawTx>, metadatasMap: map<string, MetadataEntry<M>>,
                      contents: seq<Option<JettonContent>>): (r: seq<TransactionDescription<M>>)
    ensures |r| == |txs|
    ensures forall i :: 0 <= i < |txs| ==> r[i].base == txs[i]
    ensures forall i :: 0 <= i < |txs| ==> r[i] == Describe(txs[i], metadatasMap, contents)
    decreases |txs|
  {
    if txs == [] then [] else [Describe(txs[0], metadatasMap, contents)] + Project(txs[1..], metadatasMap, contents)
  }

  /** `baseTxs?.map(...) || null`: null exactly when there is no data (an empty array is kept). */
  function Txs<M>(baseTxs: Option<seq<RawTx>>, metadatasMap: map<string, MetadataEntry<M>>,
                  contents: seq<Option<JettonContent>>): (r: Option<seq<TransactionDescription<M>>>)
    ensures r.None? <==> baseTxs.None?
    ensures r.Some? ==> (|r.value| == |baseTxs.value| &&
      forall i :: 0 <= i < |baseTxs.value| ==> r.value[i].base == baseTxs.value[i])
  {
    match baseTxs
    case None => None
    case Some(txs) => Some(Project(txs, metadatasMap, contents))
  }

  /**
   * A transaction whose counterparty is a jetton wallet with a known master
   * gets that master's preview image as its icon and the parsed metadata of
   * the wallet as its metadata.
   */
  lemma JettonWalletJoin<M>(ms: seq<Option<StoredContractMetadata>>, parse: StoredContractMetadata -> M,
                            contents: seq<Option<JettonContent>>, base: RawTx, i: int, k: int)
    requires 0 <= i < |ms| && ms[i].Some? && ms[i].value.address == base.parsed.resolvedAddress
    requires forall j :: i < j < |ms| && ms[j].Some? ==> ms[j].value.address != base.parsed.resolvedAddress
    requires ms[i].value.jettonMaster.None? && ms[i].value.jettonWallet.Some?
    requires Truthy(ms[i].value.jettonWallet.value.master)
    requires 0 <= k < |contents| && contents[k].Some?
    requires contents[k].value.address == ms[i].value.jettonWallet.value.master
    requires forall j :: 0 <= j < k && contents[j].Some? ==> contents[j].value.address != contents[k].value.address
    requires contents[k].value.image.Some?
    ensures var t := Describe(base, MetadatasMap(ms, parse), contents);
      t.icon == contents[k].value.image.value.preview256 &&
      t.masterMetadata == contents[k] &&
      t.metadata == Some(parse(ms[i].value))
  {
    MetadatasMapLastWins(ms, parse, i);
    FindContentFirst(contents, k);
  }

  // ---------------------------------------------------------------------
  // Paging and the hook's result
  // ---------------------------------------------------------------------

  /** The state of the raw paged query. `hasNextPage` may be undefined. */
  datatype RawQuery = RawQuery(
    data: Option<seq<seq<RawTx>>>,
    isFetching: bool,
    isFetchingNextPage: bool,
    hasNextPage: Option<bool>)

  /** `!!hasNextPage`. */
  function HasNext(raw: RawQuery): (b: bool)
    ensures b <==> raw.hasNextPage == Some(true)
  {
    raw.hasNextPage.GetOr(false)
  }

  /** Whether a call of `next()` requests another page. */
  function Next(raw: RawQuery): (fetch: bool)
    ensures fetch ==> !raw.isFetching && !raw.isFetchingNextPage && HasNext(raw)
    ensures !raw.isFetching && !raw.isFetchingNextPage && HasNext(raw) ==> fetch
  {
    !raw.isFetchingNextPage && !raw.isFetching && raw.hasNextPage == Some(true)
  }

  /** While a fetch is in flight `next()` never issues a second request. */
  lemma NoConcurrentFetch(raw: RawQuery)
    requires raw.isFetching || raw.isFetchingNextPage
    ensures !Next(raw)
  {
  }

  /** What the hook returns; `requestsNextPage` is what `next()` does when called. */
  datatype AccountView<M> = AccountView(
    data: Option<seq<TransactionDescription<M>>>,
    requestsNextPage: bool,
    hasNext: bool,
    loading: bool)

  /**
   * One evaluation of the hook. The metadata records and jetton contents
   * resolved for the addresses it asks for are inputs; so is the parser of
   * stored metadata. Returns the view and the two address lists it asks the
   * resolvers for.
   */
  method UseAccountTransactions<M>(raw: RawQuery, metadatas: seq<Option<StoredContractMetadata>>,
                                   contents: seq<Option<JettonContent>>, parse: StoredContractMetadata -> M)
    returns (view: AccountView<M>, mentioned: seq<string>, jettonMasters: seq<string>)
    ensures mentioned == Mentioned(BaseTxs(raw.data))
    ensures jettonMasters == JettonMasters(metadatas)
    ensures view.data == Txs(BaseTxs(raw.data), MetadatasMap(metadatas, parse), contents)
    ensures view.data.None? <==> raw.data.None?
    ensures view.data.Some? ==> |view.data.value| == |Flatten(raw.data.value)|
    ensures view.requestsNextPage == Next(raw)
    ensures view.hasNext == (raw.hasNextPage == Some(true))
    ensures view.loading == raw.isFetching
  {
    var baseTxs := BaseTxs(raw.data);
    mentioned := Mentioned(baseTxs);
    var metadatasMap;
    metadatasMap, jettonMasters := BuildMetadatas(metadatas, parse);
    view := AccountView(Txs(baseTxs, metadatasMap, contents), Next(raw), HasNext(raw), raw.isFetching);
  }
}
