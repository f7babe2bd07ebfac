/** Two caches from ids to names: hash chains in ps, a growing vector in busybox's procps. */
module Caches {
  import opened Json
  import opened Vector

  // ---------------------------------------------------------------- pwcache

  const P_G_SZ: nat := 33
  const HASHSIZE: nat := 64

  /** What an uncached lookup gives: the account's name if it fits the slot, else the number. */
  function Name(account: Option<string>, id: nat): string {
    if account == None || |account.value| >= P_G_SZ then Decimal(id) else account.value
  }

  /** The account's own name, if it has one of at most 32 bytes; else the digits of the id. */
  lemma NameIs(account: Option<string>, id: nat)
    ensures account.Some? && |account.value| <= 32 ==> Name(account, id) == account.value
    ensures account == None || |account.value| > 32 ==> AllDigits(Name(account, id)) && Spelled(Name(account, id)) == id
  {
    hide Spelled;
    SpelledDecimal(id);
  }

  class PwBuf {
    const uid: nat
    const name: string
    var next: PwBuf?

    constructor (uid: nat, name: string)
      ensures this.uid == uid && this.name == name && next == null
    {
      this.uid, this.name, next := uid, name, null;
    }
  }

  /** The buffers of a chain in order, from its head to a null. */
  ghost predicate Chained(chain: seq<PwBuf>, head: PwBuf?)
    reads chain
  {
    && head == (if chain == [] then null else chain[0])
    && (chain != [] ==> chain[|chain| - 1].next == null)
    && forall i :: 0 <= i < |chain| - 1 ==> chain[i].next == chain[i + 1]
  }

  /** One bucket: its own ids, each once, with the names an uncached lookup gives. */
  predicate Proper(chain: seq<PwBuf>, bucket: nat, accounts: nat -> Option<string>) {
    && (forall i :: 0 <= i < |chain| ==> chain[i].uid % HASHSIZE == bucket && chain[i].name == Name(accounts(chain[i].uid), chain[i].uid))
    && (forall i, j :: 0 <= i < j < |chain| ==> chain[i].uid != chain[j].uid)
  }

  class PwCache {
    /** The account database, which does not change. */
    const accounts: nat -> Option<string>
    const pwhash: array<PwBuf?>
    ghost var chains: seq<seq<PwBuf>>

    ghost predicate Valid()
      reads this, pwhash, set b, i | 0 <= b < |chains| && 0 <= i < |chains[b]| :: chains[b][i]
    {
      && pwhash.Length == HASHSIZE == |chains|
      && forall b :: 0 <= b < HASHSIZE ==> Chained(chains[b], pwhash[b]) && Proper(chains[b], b, accounts)
    }

    constructor (accounts: nat -> Option<string>)
      ensures Valid() && this.accounts == accounts && fresh(pwhash) && chains == seq(HASHSIZE, _ => [])
    {
      this.accounts := accounts;
      pwhash := new PwBuf?[HASHSIZE](_ => null);
      chains := seq(HASHSIZE, _ => []);
    }

    /**
     * pwcache_get_user, and pwcache_get_group likewise: the walk along the chain, and a new buffer at its end.
     * Whatever was looked up before, the answer is the uncached one.
     */
    method Get(uid: nat) returns (name: string)
      requires Valid()
      modifies this`chains, pwhash, (set i | 0 <= i < |chains[uid % HASHSIZE]| :: chains[uid % HASHSIZE][i])`next
      ensures Valid() && name == Name(accounts(uid), uid)
      ensures accounts(uid).Some? && |accounts(uid).value| <= 32 ==> name == accounts(uid).value
      ensures accounts(uid) == None || |accounts(uid).value| > 32 ==> AllDigits(name) && Spelled(name) == uid
      ensures var b := uid % HASHSIZE;
              if exists i :: 0 <= i < |old(chains)[b]| && old(chains)[b][i].uid == uid then chains == old(chains)
              else exists e: PwBuf :: e.uid == uid && fresh(e) && chains == old(chains)[b := old(chains)[b] + [e]]
    {
      NameIs(accounts(uid), uid);
      hide Name, Spelled;
      var b := uid % HASHSIZE;
      ghost var chain := chains[b];
      assert Chained(chain, pwhash[b]) && Proper(chain, b, accounts);
      var p, last: PwBuf? := pwhash[b], null;
      ghost var k := 0;
      while p != null
        invariant 0 <= k <= |chain| && p == (if k == |chain| then null else chain[k])
        invariant last == if k == 0 then null else chain[k - 1]
        invariant forall i :: 0 <= i < k ==> chain[i].uid != uid
        decreases |chain| - k
      {
        if p.uid == uid { return p.name; }
        last, p := p, p.next;
        k := k + 1;
      }
      name := Name(accounts(uid), uid);
      Append(b, last, uid, name);
    }

    /** A new buffer at the end of bucket b, where the walk has stopped. */
    method Append(b: nat, last: PwBuf?, uid: nat, name: string)
      requires Valid() && b == uid % HASHSIZE && name == Name(accounts(uid), uid)
      requires last == (if chains[b] == [] then null else chains[b][|chains[b]| - 1])
      requires forall i :: 0 <= i < |chains[b]| ==> chains[b][i].uid != uid
      modifies this`chains, pwhash, (if last == null then {} else {last})`next
      ensures Valid()
      ensures exists e: PwBuf :: e.uid == uid && fresh(e) && chains == old(chains)[b := old(chains)[b] + [e]]
    {
      hide Name, Proper;
      ghost var chain, was := chains[b], chains;
      assert Chained(chain, pwhash[b]) && Proper(chain, b, accounts);
      forall c | 0 <= c < HASHSIZE && c != b ensures last == null || last !in was[c] {
        assert Proper(was[c], c, accounts);
        if last != null { Apart(chain, was[c], b, c, last, accounts); }
      }
      ProperEnds(chain, b, accounts);
      var e := new PwBuf(uid, name);
      OneProper(chain, b, e, accounts);
      if last == null { pwhash[b] := e; } else { last.next := e; }
      chains := chains[b := chain + [e]];
      assert Chained(chain + [e], pwhash[b]);
      hide Chained;
    }
  }

  /** A buffer is in the chain of its own bucket only. */
  lemma Apart(chain: seq<PwBuf>, other: seq<PwBuf>, b: nat, c: nat, p: PwBuf, accounts: nat -> Option<string>)
    requires Proper(chain, b, accounts) && Proper(other, c, accounts) && b != c && p in chain
    ensures p !in other
  {
    hide Name;
  }

  lemma ProperEnds(chain: seq<PwBuf>, bucket: nat, accounts: nat -> Option<string>)
    requires Proper(chain, bucket, accounts)
    ensures forall i, j :: 0 <= i < j < |chain| ==> chain[i] != chain[j]
  {
    hide Name;
  }

  lemma OneProper(chain: seq<PwBuf>, bucket: nat, e: PwBuf, accounts: nat -> Option<string>)
    requires Proper(chain, bucket, accounts) && e.uid % HASHSIZE == bucket && e.name == Name(accounts(e.uid), e.uid)
    requires forall i :: 0 <= i < |chain| ==> chain[i].uid != e.uid
    ensures Proper(chain + [e], bucket, accounts)
  {
    hide Name;
  }

  // ---------------------------------------------------------------- procps

  const USERNAME_MAX_SIZE: nat := 28

  /** safe_strncpy into a slot of that size, read back as a string. */
  function Truncated(s: string): (t: string)
    ensures t <= s && |t| == if |s| <= 27 then |s| else 27
  {
    if |s| < USERNAME_MAX_SIZE then s else s[..USERNAME_MAX_SIZE - 1]
  }

  datatype Slot = Slot(id: nat, name: string)

  const EMPTY: Slot := Slot(0, "")

  /** Every slot holds what an uncached lookup gives for its id, and no id is there twice. */
  predicate Right(slots: seq<Slot>, utoa: nat -> string) {
    && (forall i :: 0 <= i < |slots| ==> slots[i].name == Truncated(utoa(slots[i].id)))
    && (forall i, j :: 0 <= i < j < |slots| ==> slots[i].id != slots[j].id)
  }

  lemma OneRight(slots: seq<Slot>, id: nat, utoa: nat -> string)
    requires Right(slots, utoa) && forall i :: 0 <= i < |slots| ==> slots[i].id != id
    ensures Right(slots + [Slot(id, Truncated(utoa(id)))], utoa)
  {
    hide Truncated;
  }

  lemma RightAt(slots: seq<Slot>, i: nat, utoa: nat -> string)
    requires Right(slots, utoa) && i < |slots|
    ensures slots[i].name == Truncated(utoa(slots[i].id))
  {
    hide Truncated;
  }

  /** A slot that is filled behind those in use. */
  lemma InUse(v: seq<Slot>, w: seq<Slot>, size: nat, x: Slot)
    requires size <= |v| && size < |w| && w[..size] == v[..size]
    ensures w[size := x][..size + 1] == v[..size] + [x]
  {
  }

  class IdCache {
    var cache: array<Slot>
    var size: nat
    /** What x2x_utoa returns for an id. */
    const utoa: nat -> string

    /** The slots in use. */
    ghost function Contents(): seq<Slot>
      reads this, cache
      requires size <= cache.Length
    {
      cache[..size]
    }

    ghost predicate Valid()
      reads this, cache
    {
      Consecutive(cache[..], 2, size, EMPTY) && size <= cache.Length && Right(cache[..size], utoa)
    }

    constructor (utoa: nat -> string)
      ensures Valid() && Contents() == [] && this.utoa == utoa && fresh(cache)
    {
      this.utoa := utoa;
      cache, size := new Slot[0], 0;
    }

    /** clear_cache: back to the state of the constructor. */
    method Clear()
      modifies this
      ensures Valid() && Contents() == [] && cache.Length == 0 && fresh(cache)
    {
      cache, size := new Slot[0], 0;
    }

    /** get_cached */
    method Get(id: nat) returns (name: string)
      requires Valid()
      modifies this, cache
      ensures Valid() && name == Truncated(utoa(id)) && (cache == old(cache) || fresh(cache))
      ensures name <= utoa(id) && |name| == if |utoa(id)| <= 27 then |utoa(id)| else 27
      ensures Contents() == if exists i :: 0 <= i < old(size) && old(cache[i]).id == id then old(Contents())
                            else old(Contents()) + [Slot(id, Truncated(utoa(id)))]
    {
      hide Consecutive, Grown, Truncated, Right;
      ghost var v := cache[..];
      var i := 0;
      while i < size
        invariant 0 <= i <= size && forall j :: 0 <= j < i ==> cache[j].id != id
      {
        if cache[i].id == id {
          RightAt(cache[..size], i, utoa);
          return cache[i].name;
        }
        i := i + 1;
      }
      OneRight(cache[..size], id, utoa);
      name := Truncated(utoa(id));
      ConsecutiveUse(v, 2, size, Slot(id, name), EMPTY);
      cache := XreallocVector(cache, 2, size, EMPTY);
      ghost var w := cache[..];
      InUse(v, w, size, Slot(id, name));
      cache[size] := Slot(id, name);
      assert cache[..] == w[size := Slot(id, name)];
      size := size + 1;
    }
  }
}
