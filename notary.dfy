/**
 * The `App` component of src/App.js without its rendering: the form fields it reads, the
 * write request `createEntry` submits, the event filter `findEntries` builds (with its
 * fall-back to the match-all filter), and the result list the `watch` callback grows.
 * The store's `create`, `Entry` and `watch` are external; their outcomes are parameters.
 */
module Notary {
  import opened Outcomes
  import opened StoreCache
  import opened HexEncoding

  /** Marks a hex string as a Solidity `bytes32` literal. */
  const HexPrefix: string := "0x"

  /** `web3.toWei("1", "finney")`: the value sent with every write, 10^15 wei. */
  const EntryFeeWei: nat := 1_000_000_000_000_000

  /** `"0x" + h`. */
  function WithPrefix(h: string): (r: string)
    ensures |r| == |h| + 2 && r[..2] == HexPrefix
    ensures StripPrefix(r) == h
  {
    HexPrefix + h
  }

  /** `s.slice(2)`: all but the first two characters, or nothing when `s` is shorter. */
  function StripPrefix(s: string): (r: string)
    ensures |r| == if |s| < 2 then 0 else |s| - 2
    ensures s == s[..|s| - |r|] + r
  {
    if |s| < 2 then "" else s[2..]
  }

  // ---------------------------------------------------------------------------
  // Writing an entry

  /** A SHA-256 digest as `sha256` renders it: 64 lower-case hex digits. */
  predicate IsDigestHex(h: string) {
    |h| == 64 && IsLowerHex(h)
  }

  /** An account address as web3 reports it in event arguments: `0x` and 40 lower-case hex digits. */
  predicate IsAddress(a: string) {
    |a| == 42 && a[..2] == HexPrefix && IsLowerHex(a[2..])
  }

  /** The arguments of `instance.create(hash, {from, value})`. */
  datatype CreateRequest = CreateRequest(documentHash: string, from: string, valueWei: nat)

  /** What `createEntry` does: nothing, fail to reach the store, or submit a request to it. */
  datatype Submission<H, E> = Skipped | Failed(error: E) | Submitted(instance: H, request: CreateRequest)

  /**
   * The request `createEntry` sends for the digest in the upload field, signed by `account`
   * (`web3.eth.defaultAccount`); none for an empty field.
   */
  function UploadRequest(digest: string, account: string): (r: Option<CreateRequest>)
    ensures r.None? <==> digest == ""
    ensures r.Some? ==> |r.value.documentHash| == |digest| + 2 && r.value.documentHash[..2] == HexPrefix
    ensures r.Some? ==> StripPrefix(r.value.documentHash) == digest
    ensures r.Some? ==> r.value.from == account && r.value.valueWei == EntryFeeWei
  {
    if digest == "" then None else Some(CreateRequest(WithPrefix(digest), account, EntryFeeWei))
  }

  // ---------------------------------------------------------------------------
  // Searching

  /** The first argument of `instance.Entry`: a key is absent or must equal the event's field. */
  datatype Filter = Filter(signer: Option<string>, documentHash: Option<string>)

  /** `{}`, which every event matches. */
  const MatchAll: Filter := Filter(None, None)

  /** The arguments of an `Entry` event, and a row of `foundEntries`. */
  datatype Entry = Entry(signer: string, documentHash: string)

  /** The store's reading of a filter: every key present must equal the event's field. */
  predicate Matches(f: Filter, ev: Entry) {
    && (f.signer.Some? ==> f.signer.value == ev.signer)
    && (f.documentHash.Some? ==> f.documentHash.value == ev.documentHash)
  }

  /** The filter `findEntries` builds from the search fields, adding a key only for a non-empty field. */
  function SearchFilter(signerField: string, hashField: string): (f: Filter)
    ensures f.signer.Some? <==> signerField != ""
    ensures f.signer.Some? ==> f.signer.value == signerField
    ensures f.documentHash.Some? <==> hashField != ""
    ensures f.documentHash.Some? ==> f.documentHash.value == WithPrefix(hashField)
  {
    var f := MatchAll;
    var f := if signerField != "" then f.(signer := Some(signerField)) else f;
    if hashField != "" then f.(documentHash := Some(WithPrefix(hashField))) else f
  }

  /**
   * The filter the subscription is opened with when `accepts` tells which filters `instance.Entry`
   * takes without throwing: the requested one, else `{}`, else no subscription at all (the
   * second throw escapes the callback).
   */
  function WatchedFilter(requested: Filter, accepts: Filter -> bool): (r: Option<Filter>)
    ensures accepts(requested) ==> r == Some(requested)
    ensures r.Some? ==> accepts(r.value) && (r.value == requested || r.value == MatchAll)
    ensures r.None? <==> !accepts(requested) && !accepts(MatchAll)
    ensures r.Some? ==> forall ev :: Matches(requested, ev) ==> Matches(r.value, ev)
  {
    if accepts(requested) then Some(requested)
    else if accepts(MatchAll) then Some(MatchAll)
    else None
  }

  /** The row the `watch` callback stores for an event: its arguments with the hash's `0x` knocked off. */
  function Stored(ev: Entry): (e: Entry)
    ensures e.signer == ev.signer
    ensures forall h {:trigger WithPrefix(h)} :: ev.documentHash == WithPrefix(h) ==> e.documentHash == h
  {
    ev.(documentHash := StripPrefix(ev.documentHash))
  }

  /** An event matches the filter built from the search fields exactly when it has each non-empty field. */
  lemma SearchFilterMatches(signerField: string, hashField: string, ev: Entry)
    ensures Matches(SearchFilter(signerField, hashField), ev) <==>
      (signerField == "" || ev.signer == signerField) && (hashField == "" || ev.documentHash == WithPrefix(hashField))
  {
  }

  /**
   * A row found with a digest in the search field shows exactly that digest, with no prefix
   * left, and a row found with an address shows that address. Fields are taken in the
   * canonical lower-case form in which the store's matching coincides with `Matches`.
   */
  lemma FoundRowShowsSearchedHash(signerField: string, hashField: string, ev: Entry)
    requires signerField == "" || IsAddress(signerField)
    requires hashField == "" || IsDigestHex(hashField)
    requires Matches(SearchFilter(signerField, hashField), ev)
    ensures hashField != "" ==> Stored(ev).documentHash == hashField
    ensures signerField != "" ==> Stored(ev).signer == signerField
  {
  }

  /**
   * An entry the store records for an uploaded digest is found by searching for the digest,
   * the account, or both, and is shown as (account, digest).
   */
  lemma UploadedDigestIsFound(digest: string, account: string, ev: Entry)
    requires IsDigestHex(digest) && IsAddress(account)
    requires ev == Entry(account, UploadRequest(digest, account).value.documentHash)
    ensures Matches(SearchFilter(account, digest), ev)
    ensures Matches(SearchFilter("", digest), ev) && Matches(SearchFilter(account, ""), ev)
    ensures Stored(ev) == Entry(account, digest)
  {
  }

  // ---------------------------------------------------------------------------
  // The component's state

  class App {
    var foundEntries: seq<Entry>
    var signer: string
    var documentHash: string
    var documentHashToUpload: string
    /** The filters of the `watch` subscriptions opened so far; none is ever closed. */
    var watches: seq<Filter>

    constructor ()
      ensures foundEntries == [] && watches == []
      ensures signer == "" && documentHash == "" && documentHashToUpload == ""
    {
      foundEntries := [];
      signer := "";
      documentHash := "";
      documentHashToUpload := "";
      watches := [];
    }

    /**
     * `createEntry()`: with an empty upload field it does nothing; otherwise it gets the store
     * handle through `cache` and submits the prefixed digest with the fee.
     */
    method CreateEntry<H, E>(cache: InstanceCache<H>, account: string, outcome: Result<H, E>)
      returns (s: Submission<H, E>)
      modifies cache
      ensures documentHashToUpload == "" ==> s == Skipped && unchanged(cache)
      ensures documentHashToUpload != "" ==>
        var served := Lookup(old(cache.storeInstance), outcome);
        && cache.storeInstance == served.cache
        && cache.resolutions == old(cache.resolutions) + (if served.resolved then 1 else 0)
        && s == match served.result
                case Ok(h) => Submitted(h, UploadRequest(documentHashToUpload, account).value)
                case Err(e) => Failed(e)
    {
      if documentHashToUpload == "" {
        return Skipped;
      }
      var instance := cache.GetInstance(outcome);
      match instance
      case Ok(h) =>
        s := Submitted(h, CreateRequest(HexPrefix + documentHashToUpload, account, EntryFeeWei));
      case Err(e) =>
        s := Failed(e);
    }

    /**
     * `findEntries()`: clears the results, gets the store handle through `cache`, and opens a
     * subscription with the filter built from the search fields, falling back to `{}`.
     */
    method FindEntries<H, E>(cache: InstanceCache<H>, outcome: Result<H, E>, accepts: Filter -> bool)
      modifies this, cache
      ensures foundEntries == []
      ensures signer == old(signer) && documentHash == old(documentHash)
      ensures documentHashToUpload == old(documentHashToUpload)
      ensures var served := Lookup(old(cache.storeInstance), outcome);
        && cache.storeInstance == served.cache
        && cache.resolutions == old(cache.resolutions) + (if served.resolved then 1 else 0)
        && var watched := WatchedFilter(SearchFilter(signer, documentHash), accepts);
           watches == old(watches) + (if served.result.Ok? && watched.Some? then [watched.value] else [])
    {
      foundEntries := [];
      var instance := cache.GetInstance(outcome);
      if instance.Ok? {
        var filters := MatchAll;
        if signer != "" {
          filters := filters.(signer := Some(signer));
        }
        if documentHash != "" {
          filters := filters.(documentHash := Some(HexPrefix + documentHash));
        }
        if accepts(filters) {
          watches := watches + [filters];
        } else if accepts(MatchAll) {
          watches := watches + [MatchAll];
        }
      }
    }

    /** The `watch` callback: appends the event's row at the end and keeps the earlier rows. */
    method OnEntry(ev: Entry)
      modifies this`foundEntries
      ensures foundEntries == old(foundEntries) + [Stored(ev)]
    {
      var args := ev.(documentHash := StripPrefix(ev.documentHash));
      foundEntries := foundEntries + [args];
    }
  }
}
