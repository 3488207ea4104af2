# Pending-transaction watcher, transaction join and status-bar bridge

A Dafny model of three pieces of decision logic in a TON wallet's mobile UI:

- **Pending-transaction watcher.** The wallet keeps, per account, a list of
  locally submitted transactions. When the first transaction of the account
  feed, the account-lite snapshot and the wallet snapshot agree on the sync
  point, and the wallet seqno is known, every pending entry whose seqno is
  below the wallet's seqno is marked `sent`. The gates and the list update are
  pure functions (`Decide`, `MarkSent`, `Update`, `Reconcile`). The
  process-wide store is the class `PendingStore`, whose `Watch` method writes
  the selected account's slot and nothing else.
- **Account-transaction aggregator.** The loaded pages of raw transactions are
  flattened. The addresses they mention are deduplicated into the list whose
  metadata is requested. A loop (`BuildMetadatas`) turns the resolved metadata
  records into a map from address to entry and a list of jetton masters.
  Each transaction is then projected into a `TransactionDescription` joined
  with its counterparty's metadata and the jetton-master content. Paging
  exposes `next()`, `hasNext` and `loading`.
- **Status-bar message bridge.** A web-view message named `status-bar.<action>`
  is handled. It calls at most one host setter or logs one warning. Any other
  message is reported as not handled. The model returns the calls as a list of
  effects.

JavaScript semantics are written out where they matter. Strict equality makes
two missing hashes equal. `x || 0` defaults a missing number. A seqno of 0 is
falsy. The empty string is falsy, so an empty jetton-wallet master counts as
no master and an empty jetton address is never collected. An empty array is
truthy, so `[] || null` stays `[]`. `args[0]` throws a TypeError when `args`
is undefined or null.

Files: `wrappers.dfy` (Option), `pending_watcher.dfy`, `account_transactions.dfy`,
`status_bar.dfy`.

## Model

| member | source | states |
|---|---|---|
| PendingWatcher.Decide | app/engine/hooks/transactions/usePendingWatcher.ts:20-30 | the store is updated iff the hashes are equal (two absent ones included), the wallet's last block (default 0) is not below the lite block (default 0) and the wallet seqno is present and non-zero; the seqno used is the wallet's |
| PendingWatcher.MarkSent | app/engine/hooks/transactions/usePendingWatcher.ts:36-41 | same length and order; each entry keeps seqno and other fields; an entry below the wallet seqno becomes `sent`, every other one keeps its status |
| PendingWatcher.OrZero | app/engine/hooks/transactions/usePendingWatcher.ts:20 | the default to 0: an absent number reads as 0, a present one as itself |
| PendingWatcher.InSync | app/engine/hooks/transactions/usePendingWatcher.ts:20 | in sync iff the hashes are equal (two absent ones included) and the wallet last block (default 0) is not below the lite block (default 0): unequal hashes or a lagging wallet block close the gate, and equal hashes with the wallet block caught up open it |
| PendingWatcher.SeqnoReady | app/engine/hooks/transactions/usePendingWatcher.ts:28 | an absent seqno or a seqno of 0 is not ready; any other present seqno is |
| PendingWatcher.Settle | app/engine/hooks/transactions/usePendingWatcher.ts:37-40 | seqno and other fields are kept; an entry below the seqno becomes `sent`; any other entry is returned unchanged; `sent` stays `sent` |
| PendingWatcher.Update | app/engine/hooks/transactions/usePendingWatcher.ts:32-42 | an empty list is returned as it is; length is kept; entries at or above the seqno are unchanged; an entry below it becomes `sent` with every other field kept |
| PendingWatcher.Reconcile | app/engine/hooks/transactions/usePendingWatcher.ts:19-43 | a closed gate (not in sync, or seqno not ready) leaves the list as it was; otherwise length, order, seqnos and other fields are kept and exactly the entries below the wallet seqno become `sent`; a status string other than `pending`/`sent` never turns into a second spelling of them |
| PendingWatcher.MarkSentIdempotent | app/engine/hooks/transactions/usePendingWatcher.ts:36-41 | marking twice with one seqno equals marking once |
| PendingWatcher.MarkSentCompose | app/engine/hooks/transactions/usePendingWatcher.ts:36-41 | marking with s1 then s2 equals marking once with the larger of the two |
| PendingWatcher.AccountKey | app/engine/hooks/transactions/usePendingWatcher.ts:13 | the store key is the selected account's address, or `''` when no account is selected |
| PendingWatcher.ReconcileAll | app/engine/hooks/transactions/usePendingWatcher.ts:19-43 | running the effect once per observation, in order, keeps the length of the list |
| PendingWatcher.ReconcileIdempotent | app/engine/hooks/transactions/usePendingWatcher.ts:19-43 | running the effect twice on the same observations equals running it once |
| PendingWatcher.NeverUnsends | app/engine/hooks/transactions/usePendingWatcher.ts:36-41 | over any sequence of runs the list keeps its length, seqnos and other fields, and a `sent` entry stays `sent` |
| PendingWatcher.SentOnlyWhenSynced | app/engine/hooks/transactions/usePendingWatcher.ts:20-38 | an entry that is `sent` after any sequence of runs was `sent` before or lies below the seqno of a run whose gates were open |
| PendingWatcher.ExampleReconcile | app/engine/hooks/transactions/usePendingWatcher.ts:19-43 | seqnos 5 and 7 with wallet seqno 6: in sync gives 5 sent and 7 pending; a hash mismatch leaves the list unchanged |
| PendingWatcher.PendingStore.Get | app/engine/hooks/transactions/usePendingWatcher.ts:13 | a slot reads as the list stored under its key, or the empty list when none was written |
| PendingWatcher.PendingStore.Watch | app/engine/hooks/transactions/usePendingWatcher.ts:13-43 | a closed gate writes nothing; otherwise only the slot of the selected account (`''` when none) is replaced by the updated list, and every other slot reads as before |
| AccountTransactions.JettonMasterAddress | app/engine/hooks/transactions/useAccountTransactions.ts:12-19 | null input gives null; a jetton master gives its own address (over any wallet data); otherwise a non-empty wallet master; otherwise null |
| AccountTransactions.Truthy | app/engine/hooks/transactions/useAccountTransactions.ts:15 | a string is truthy iff it is non-empty |
| AccountTransactions.MasterWinsOverWallet | app/engine/hooks/transactions/useAccountTransactions.ts:13-16 | a jetton master's own address is returned whatever wallet data the record also holds |
| AccountTransactions.JettonMasterAddressOrigin | app/engine/hooks/transactions/useAccountTransactions.ts:12-19 | a non-null result is the master's own address or a non-empty wallet master; the result is null iff neither applies |
| AccountTransactions.BaseTxs | app/engine/hooks/transactions/useAccountTransactions.ts:49 | null iff the query has no data; otherwise a transaction is loaded iff it is on some page |
| AccountTransactions.Flatten | app/engine/hooks/transactions/useAccountTransactions.ts:49 | no pages flatten to nothing and one page flattens to itself, in its order; a transaction is in the flattened list iff it is on some page (with FlattenAppend this is `flat()`) |
| AccountTransactions.FlattenAppend | app/engine/hooks/transactions/useAccountTransactions.ts:49 | flattening keeps page order: the flattening of two runs of pages is the concatenation of their flattenings |
| AccountTransactions.AllMentioned | app/engine/hooks/transactions/useAccountTransactions.ts:50 | an address is in the `flatMap` iff some transaction mentions it |
| AccountTransactions.Dedup | app/engine/hooks/transactions/useAccountTransactions.ts:50 | the result has no duplicates and has exactly the elements of the input |
| AccountTransactions.DedupOrder | app/engine/hooks/transactions/useAccountTransactions.ts:50 | the deduplicated list keeps the order of first occurrences, as a JavaScript Set does |
| AccountTransactions.Mentioned | app/engine/hooks/transactions/useAccountTransactions.ts:48-56 | empty without data; otherwise every address mentioned by a loaded transaction, each exactly once, and nothing else |
| AccountTransactions.EntryOf | app/engine/hooks/transactions/useAccountTransactions.ts:65-68 | the stored entry holds the parsed metadata and the record's jetton-master address: its own address for a master, otherwise its wallet's master when non-empty, otherwise null |
| AccountTransactions.MetadatasMap | app/engine/hooks/transactions/useAccountTransactions.ts:62-73 | every key of the map is the address of some non-null record, and its entry is that record's parsed metadata and jetton-master address |
| AccountTransactions.JettonMasters | app/engine/hooks/transactions/useAccountTransactions.ts:62-73 | no more masters than records, and never an empty address (per-record order and contents: JettonMastersContents, JettonMastersAppend) |
| AccountTransactions.MetadatasMapKeys | app/engine/hooks/transactions/useAccountTransactions.ts:62-73 | the map has a key for exactly the addresses of the non-null records |
| AccountTransactions.MetadatasMapLastWins | app/engine/hooks/transactions/useAccountTransactions.ts:62-73 | the entry stored for an address is that of the last non-null record with that address |
| AccountTransactions.JettonMastersContents | app/engine/hooks/transactions/useAccountTransactions.ts:62-73 | an address is collected iff it is the non-empty jetton-master address of some record |
| AccountTransactions.JettonMastersAppend | app/engine/hooks/transactions/useAccountTransactions.ts:62-73 | collection follows input order: the masters of earlier records come first |
| AccountTransactions.MapMastersRequested | app/engine/hooks/transactions/useAccountTransactions.ts:62-81 | every non-empty jetton-master address recorded in the map is among the masters whose content is requested |
| AccountTransactions.BuildMetadatas | app/engine/hooks/transactions/useAccountTransactions.ts:59-78 | the loop's map and list equal the left-to-right fold of the records (the functions the lemmas above describe) |
| AccountTransactions.FindContent | app/engine/hooks/transactions/useAccountTransactions.ts:87 | null iff no present content has the address; otherwise the first present content with that address |
| AccountTransactions.FindContentFirst | app/engine/hooks/transactions/useAccountTransactions.ts:87 | a present content with no earlier present content of the same address is the one `find` returns |
| AccountTransactions.MasterContentOf | app/engine/hooks/transactions/useAccountTransactions.ts:84-87 | null when the counterparty is not in the map, and null when its recorded master address is null or empty; when its recorded master address is non-empty, the first present content with that address; a result always has that address and is among the contents |
| AccountTransactions.Describe | app/engine/hooks/transactions/useAccountTransactions.ts:83-98 | id is `lt + "_" + hash`; verified, op and title are null; metadata is null iff the counterparty is not in the map, else the map's parsed metadata; masterMetadata is null iff there is no non-empty master address or no content with it, else the first present content with that address that `find` returns; icon is its image preview, null when missing |
| AccountTransactions.Project | app/engine/hooks/transactions/useAccountTransactions.ts:83-99 | one description per transaction, same length and order |
| AccountTransactions.Txs | app/engine/hooks/transactions/useAccountTransactions.ts:82-100 | null iff there is no data (an empty array is kept); otherwise same length and order as the loaded transactions |
| AccountTransactions.JettonWalletJoin | app/engine/hooks/transactions/useAccountTransactions.ts:62-98 | a transaction whose counterparty is a jetton wallet (the last record with its address) with a resolved master gets, from the first content with the master's address, the master's preview as icon, the master content as masterMetadata and the wallet's parsed metadata as metadata |
| AccountTransactions.HasNext | app/engine/hooks/transactions/useAccountTransactions.ts:109 | `hasNext` is true iff `hasNextPage` is true (undefined counts as false) |
| AccountTransactions.Next | app/engine/hooks/transactions/useAccountTransactions.ts:104-108 | `next()` requests a page iff no fetch of any kind is in flight and a next page exists |
| AccountTransactions.NoConcurrentFetch | app/engine/hooks/transactions/useAccountTransactions.ts:104-108 | while a fetch is in flight `next()` requests nothing |
| AccountTransactions.UseAccountTransactions | app/engine/hooks/transactions/useAccountTransactions.ts:39-112 | the hook's data is null iff there is no raw data, else one description per flattened transaction; it requests metadata for the deduplicated mentions and content for the collected masters; `loading` is `isFetching` |
| StatusBarMessage.Split | app/components/webview/utils/processStatusBarMessage.ts:10 | at least one segment, none containing the separator |
| StatusBarMessage.JoinSplit | app/components/webview/utils/processStatusBarMessage.ts:10 | joining the segments with the separator gives the name back |
| StatusBarMessage.SplitJoin | app/components/webview/utils/processStatusBarMessage.ts:10 | splitting a join of separator-free segments gives the segments back |
| StatusBarMessage.IsStatusBarName | app/components/webview/utils/processStatusBarMessage.ts:9 | a message is a status-bar directive iff its name is a string beginning with `status-bar.` |
| StatusBarMessage.FirstArg | app/components/webview/utils/processStatusBarMessage.ts:14 | `args[0]` is the first argument, undefined for an empty array |
| StatusBarMessage.ActionType | app/components/webview/utils/processStatusBarMessage.ts:10 | the second `.`-separated segment of a prefixed name is dot-free and is the first segment of what follows `status-bar.` |
| StatusBarMessage.ActionTypeOf | app/components/webview/utils/processStatusBarMessage.ts:10 | the action of `status-bar.<a>` and of `status-bar.<a>.<rest>` is `<a>`, for any dot-free `<a>` |
| StatusBarMessage.ProcessStatusBarMessage | app/components/webview/utils/processStatusBarMessage.ts:4-33 | a non-string or unprefixed name returns false with no effects; a prefixed name returns true with exactly one effect unless reading `args` throws; a style is set only for `dark`/`light` under `setStatusBarStyle`; a background is set only under `setStatusBarBackgroundColor`, with `args[0]` and animated |
| StatusBarMessage.StyleDirective | app/components/webview/utils/processStatusBarMessage.ts:13-22 | `setStatusBarStyle` with `dark` or `light` gives exactly that SetStyle; any other argument gives only a warning |
| StatusBarMessage.BackgroundDirective | app/components/webview/utils/processStatusBarMessage.ts:23-26 | `setStatusBarBackgroundColor` gives exactly one SetBackground(args[0], true) |
| StatusBarMessage.OtherAction | app/components/webview/utils/processStatusBarMessage.ts:27-30 | any other action, the empty one of `status-bar.` included, gives only a warning and returns true |
| StatusBarMessage.ExampleDark | app/components/webview/utils/processStatusBarMessage.ts:13-16 | `status-bar.setStatusBarStyle` with `dark` sets the dark style and returns true |
| StatusBarMessage.ExamplePurple | app/components/webview/utils/processStatusBarMessage.ts:19-21 | `status-bar.setStatusBarStyle` with `purple` only warns and returns true |
| StatusBarMessage.ExampleOther | app/components/webview/utils/processStatusBarMessage.ts:9-32 | `other.thing` returns false with no effects |

## Left out

- React and Recoil plumbing (`useEffect` and `useMemo` dependency tracking, `useSetRecoilState`, `useSelectedAccount`) is left out. Each effect or memo is modelled as the function it wraps, evaluated once per call.
- Reference identity is not modelled. The updater returns the same list object for an empty list; in the value model this shows only as an equal list. When a gate is closed the effect returns before calling the store's setter, which the model shows as no write to the store.
- The default value of an account's store slot is assumed to be the empty list. The definition of `pendingTransactionsState` (app/engine/state/pending) is not part of this model.
- The status values other than `pending` and `sent`, and the fields of a pending transaction other than `seqno` and `status`, are not part of this model. They are carried as `Other(name)` and an opaque `details` map, which the watcher copies unchanged.
- Network queries are inputs to the model: the raw transaction pages, the wallet and lite snapshots, the contract metadata records and the jetton contents. `fetchNextPage` is modelled as the flag `requestsNextPage`.
- `parseStoredMetadata` (app/engine/hooks/transactions/useAccountTransactions.ts:21-36) is a parameter `parse`. Its address and big-integer parsing belong to foreign libraries, and any exception they might throw is not modelled.
- Only the fields of jetton content that the join reads (address, image preview) are modelled; the others are carried opaquely by the host and not part of this model.
- The `warn` logging sink is an effect tag with the message text.
- Upstream JSON parsing of web-view messages is not modelled. So is a message whose `data` is missing (the source throws on reading `parsed.data.name` then). So are `args` values that are neither an array nor undefined/null, where JavaScript indexing of strings or objects would apply.
- JavaScript numbers are modelled as unbounded integers. NaN as a wallet seqno, and fractional values, are not modelled.
- app/components/ATextInput.tsx is presentational and not part of this model.
