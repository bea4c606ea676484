/** The static hash index: bucket pages with overflow chains, proved to be a map from key blobs
    to pointers. */
module HashIndex {
  import opened Pages
  import opened Entries
  import opened Values
  import opened SlottedPages

  const ENTRY_SIZE: nat := 40

  datatype HashEntry = HashEntry(key: Bytes, ptr: Ptr)
  datatype Bucket = Bucket(slots: Slots<HashEntry>, next: int)

  /** The bucket of a key blob: that of the key it encodes. */
  function Home(key: Bytes, t: FieldType, buckets: nat): (b: nat)
    requires buckets > 0
    ensures b < buckets
  {
    match DecodeKey(key, t) case None => 0 case Some(v) => HashKey(v, buckets)
  }

  /** The blob of a key is at home in the bucket the source hashes the key to. */
  lemma HomeIsHash(v: Value, t: FieldType, buckets: nat)
    requires Storable(v) && OfType(v, t) && buckets > 0
    ensures Home(EncodeKey(v), t, buckets) == HashKey(v, buckets)
  {
    KeyRoundTrip(v, t);
  }

  /** Slot s of the i-th page of a chain. */
  function EntryAt(pages: seq<Bucket>, chain: seq<nat>, i: int, s: int): Option<HashEntry> {
    if 0 <= i < |chain| && chain[i] < |pages| && 0 <= s < |pages[chain[i]].slots| then pages[chain[i]].slots[s] else None
  }

  /** The chain of bucket b starts at page b and follows the next links to the end. */
  predicate Chained(pages: seq<Bucket>, chain: seq<nat>, b: nat) {
    && |chain| >= 1 && chain[0] == b
    && forall i :: 0 <= i < |chain| ==> LinkOk(pages, chain, i)
  }

  predicate LinkOk(pages: seq<Bucket>, chain: seq<nat>, i: nat)
    requires i < |chain|
  {
    chain[i] < |pages| && pages[chain[i]].next == NextInChain(chain, i)
  }

  function NextInChain(chain: seq<nat>, i: nat): int {
    if i + 1 < |chain| then chain[i + 1] else NULL_PAGE
  }

  /** Chains meet every page at most once: no cycle, and no page in two buckets. */
  predicate Disjoint(chains: seq<seq<nat>>) {
    forall b, c, i, j ::
      0 <= b < |chains| && 0 <= c < |chains| && 0 <= i < |chains[b]| && 0 <= j < |chains[c]| ==>
      chains[b][i] == chains[c][j] ==> b == c && i == j
  }

  predicate Layout(pages: seq<Bucket>, chains: seq<seq<nat>>, buckets: nat) {
    && 1 <= buckets == |chains|
    && (forall p :: 0 <= p < |pages| ==> |pages[p].slots| == MAX_SLOTS)
    && (forall b :: 0 <= b < |chains| ==> Chained(pages, chains[b], b))
    && Disjoint(chains)
  }

  /** Each entry is in the chain of its own bucket and is the map's, ... */
  predicate EntryOk(content: map<Bytes, Ptr>, t: FieldType, buckets: nat, b: nat, e: HashEntry)
    requires buckets > 0
  {
    Home(e.key, t, buckets) == b && e.key in content && content[e.key] == e.ptr
  }

  /** ... each key of the map has an entry, and no key has two. */
  ghost predicate HasEntry(pages: seq<Bucket>, chain: seq<nat>, key: Bytes, ptr: Ptr) {
    exists i, s :: EntryAt(pages, chain, i, s) == Some(HashEntry(key, ptr))
  }

  predicate SameKey(a: Option<HashEntry>, b: Option<HashEntry>) {
    a.Some? && b.Some? && a.value.key == b.value.key
  }

  ghost predicate OneEntry(pages: seq<Bucket>, chain: seq<nat>) {
    forall i, s, j, u :: SameKey(EntryAt(pages, chain, i, s), EntryAt(pages, chain, j, u)) ==> i == j && s == u
  }

  ghost predicate Holds(pages: seq<Bucket>, chains: seq<seq<nat>>, buckets: nat, t: FieldType, content: map<Bytes, Ptr>) {
    && Layout(pages, chains, buckets)
    && (forall b, i, s :: 0 <= b < buckets && EntryAt(pages, chains[b], i, s).Some? ==>
          EntryOk(content, t, buckets, b, EntryAt(pages, chains[b], i, s).value))
    && (forall k :: k in content ==> HasEntry(pages, chains[Home(k, t, buckets)], k, content[k]))
    && (forall b :: 0 <= b < buckets ==> OneEntry(pages, chains[b]))
  }

  // ---------------------------------------------------------------- changing one slot

  function SetSlot(pages: seq<Bucket>, pid: nat, s: nat, e: Option<HashEntry>): seq<Bucket>
    requires pid < |pages| && s < |pages[pid].slots|
  {
    pages[pid := pages[pid].(slots := pages[pid].slots[s := e])]
  }

  lemma SetSlotLayout(pages: seq<Bucket>, chains: seq<seq<nat>>, buckets: nat, b: nat, i: nat, s: nat, e: Option<HashEntry>)
    requires Layout(pages, chains, buckets) && b < buckets && i < |chains[b]| && s < MAX_SLOTS
    ensures chains[b][i] < |pages| && s < |pages[chains[b][i]].slots|
    ensures var pages' := SetSlot(pages, chains[b][i], s, e);
            && Layout(pages', chains, buckets)
            && forall c, j, u :: 0 <= c < buckets ==>
                 EntryAt(pages', chains[c], j, u) == if c == b && j == i && u == s then e else EntryAt(pages, chains[c], j, u)
  {
    assert Chained(pages, chains[b], b) && LinkOk(pages, chains[b], i);
    var pages' := SetSlot(pages, chains[b][i], s, e);
    forall c | 0 <= c < buckets ensures Chained(pages', chains[c], c) {
      assert Chained(pages, chains[c], c);
      forall j | 0 <= j < |chains[c]| ensures LinkOk(pages', chains[c], j) {
        assert LinkOk(pages, chains[c], j);
      }
    }
    forall c, j, u | 0 <= c < buckets
      ensures EntryAt(pages', chains[c], j, u) == if c == b && j == i && u == s then e else EntryAt(pages, chains[c], j, u)
    {
      if 0 <= j < |chains[c]| {
        assert Chained(pages, chains[c], c) && LinkOk(pages, chains[c], j);
      }
    }
  }

  /** A new entry in a free slot of its own chain. */
  lemma PutHolds(pages: seq<Bucket>, pages': seq<Bucket>, chains: seq<seq<nat>>, chains': seq<seq<nat>>, buckets: nat,
                 t: FieldType, content: map<Bytes, Ptr>, key: Bytes, ptr: Ptr, i: nat, s: nat)
    requires Holds(pages, chains, buckets, t, content) && Layout(pages', chains', buckets) && key !in content
    requires EntryAt(pages, chains[Home(key, t, buckets)], i, s) == None
    requires forall c, j, u :: 0 <= c < buckets ==>
               EntryAt(pages', chains'[c], j, u)
               == if c == Home(key, t, buckets) && j == i && u == s then Some(HashEntry(key, ptr))
                  else EntryAt(pages, chains[c], j, u)
    ensures Holds(pages', chains', buckets, t, content[key := ptr])
  {
    assert |chains| == buckets == |chains'|;
    hide Home, Layout, EntryAt;
    var content' := content[key := ptr];
    forall c, j, u | 0 <= c < buckets && EntryAt(pages', chains'[c], j, u).Some?
      ensures EntryOk(content', t, buckets, c, EntryAt(pages', chains'[c], j, u).value)
    {
      PutEntryOk(content, t, buckets, c, EntryAt(pages, chains[c], j, u), EntryAt(pages', chains'[c], j, u), key, ptr);
    }
    hide EntryOk, OneEntry, HasEntry;
    forall k | k in content' ensures HasEntry(pages', chains'[Home(k, t, buckets)], k, content'[k]) {
      var c := Home(k, t, buckets);
      if k == key {
        EntryHere(pages', chains'[c], i, s, key, ptr);
      } else {
        assert HasEntry(pages, chains[c], k, content[k]);
        SameEntry(pages, chains[c], pages', chains'[c], k, content[k]);
      }
    }
    forall c | 0 <= c < buckets ensures OneEntry(pages', chains'[c]) {
      PutOneEntry(pages, pages', chains[c], chains'[c], content, t, buckets, c, key, ptr, i, s);
    }
  }

  lemma PutEntryOk(content: map<Bytes, Ptr>, t: FieldType, buckets: nat, c: nat, e: Option<HashEntry>,
                   e': Option<HashEntry>, key: Bytes, ptr: Ptr)
    requires buckets > 0 && key !in content && (e.Some? ==> EntryOk(content, t, buckets, c, e.value))
    requires e' == e || (c == Home(key, t, buckets) && e' == Some(HashEntry(key, ptr)))
    ensures e'.Some? ==> EntryOk(content[key := ptr], t, buckets, c, e'.value)
  {
    hide Home;
  }

  lemma EntryHere(pages: seq<Bucket>, chain: seq<nat>, i: nat, s: nat, key: Bytes, ptr: Ptr)
    requires EntryAt(pages, chain, i, s) == Some(HashEntry(key, ptr))
    ensures HasEntry(pages, chain, key, ptr)
  {
  }

  /** An entry stays as long as its slot does. */
  lemma SameEntry(pages: seq<Bucket>, chain: seq<nat>, pages': seq<Bucket>, chain': seq<nat>, key: Bytes, ptr: Ptr)
    requires HasEntry(pages, chain, key, ptr)
    requires forall j, u :: EntryAt(pages, chain, j, u).Some? && EntryAt(pages, chain, j, u).value.key == key ==>
               EntryAt(pages', chain', j, u) == EntryAt(pages, chain, j, u)
    ensures HasEntry(pages', chain', key, ptr)
  {
    hide EntryAt;
    var j, u :| EntryAt(pages, chain, j, u) == Some(HashEntry(key, ptr));
    assert EntryAt(pages', chain', j, u) == Some(HashEntry(key, ptr));
  }

  lemma PutOneEntry(pages: seq<Bucket>, pages': seq<Bucket>, chain: seq<nat>, chain': seq<nat>,
                    content: map<Bytes, Ptr>, t: FieldType, buckets: nat, c: nat, key: Bytes, ptr: Ptr, i: nat, s: nat)
    requires OneEntry(pages, chain) && key !in content && buckets > 0
    requires forall j, u :: EntryAt(pages, chain, j, u).Some? ==> EntryOk(content, t, buckets, c, EntryAt(pages, chain, j, u).value)
    requires forall j, u :: EntryAt(pages', chain', j, u) == EntryAt(pages, chain, j, u)
                         || (j == i && u == s && EntryAt(pages', chain', j, u) == Some(HashEntry(key, ptr)))
    ensures OneEntry(pages', chain')
  {
    hide Home, EntryAt;
  }

  /** One slot of a chain emptied. */
  lemma CutHolds(pages: seq<Bucket>, pages': seq<Bucket>, chains: seq<seq<nat>>, buckets: nat,
                 t: FieldType, content: map<Bytes, Ptr>, key: Bytes, b: nat, i: nat, s: nat)
    requires Holds(pages, chains, buckets, t, content) && Layout(pages', chains, buckets) && b < buckets
    requires EntryAt(pages, chains[b], i, s).Some? && EntryAt(pages, chains[b], i, s).value.key == key
    requires forall c, j, u :: 0 <= c < buckets ==>
               EntryAt(pages', chains[c], j, u)
               == if c == b && j == i && u == s then None else EntryAt(pages, chains[c], j, u)
    ensures Holds(pages', chains, buckets, t, content - {key}) && key in content
  {
    assert |chains| == buckets;
    hide Home, Layout, EntryAt, EntryOk, HasEntry, OneEntry;
    var content' := content - {key};
    KeyHeld(pages, chains, buckets, t, content, b, i, s);
    forall c, j, u | 0 <= c < buckets && EntryAt(pages', chains[c], j, u).Some?
      ensures EntryOk(content', t, buckets, c, EntryAt(pages', chains[c], j, u).value)
    {
      assert EntryAt(pages', chains[c], j, u) == EntryAt(pages, chains[c], j, u) && (c, j, u) != (b, i, s);
      OtherKey(pages, chains, buckets, t, content, c, j, u, b, i, s);
      EntryKept(content, t, buckets, c, EntryAt(pages, chains[c], j, u).value, key);
    }
    forall k | k in content' ensures HasEntry(pages', chains[Home(k, t, buckets)], k, content'[k]) {
      var c := Home(k, t, buckets);
      SameEntry(pages, chains[c], pages', chains[c], k, content[k]);
    }
    forall c | 0 <= c < buckets ensures OneEntry(pages', chains[c]) {
      CutOneEntry(pages, pages', chains[c]);
    }
  }

  lemma KeyHeld(pages: seq<Bucket>, chains: seq<seq<nat>>, buckets: nat, t: FieldType, content: map<Bytes, Ptr>,
                b: nat, i: nat, s: nat)
    requires Holds(pages, chains, buckets, t, content) && b < buckets && EntryAt(pages, chains[b], i, s).Some?
    ensures EntryAt(pages, chains[b], i, s).value.key in content
    ensures EntryOk(content, t, buckets, b, EntryAt(pages, chains[b], i, s).value)
  {
    hide Home, Layout, EntryAt, HasEntry, OneEntry;
  }

  /** Two slots never hold the same key. */
  lemma OtherKey(pages: seq<Bucket>, chains: seq<seq<nat>>, buckets: nat, t: FieldType, content: map<Bytes, Ptr>,
                 c: nat, j: int, u: int, b: nat, i: nat, s: nat)
    requires Holds(pages, chains, buckets, t, content) && c < buckets && b < buckets && (c, j, u) != (b, i, s)
    requires EntryAt(pages, chains[b], i, s).Some? && EntryAt(pages, chains[c], j, u).Some?
    ensures EntryAt(pages, chains[c], j, u).value.key != EntryAt(pages, chains[b], i, s).value.key
    ensures EntryOk(content, t, buckets, c, EntryAt(pages, chains[c], j, u).value)
  {
    assert |chains| == buckets;
    hide Home, Layout, EntryAt, HasEntry;
    assert EntryOk(content, t, buckets, b, EntryAt(pages, chains[b], i, s).value);
    assert OneEntry(pages, chains[b]);
    assert SameKey(EntryAt(pages, chains[b], j, u), EntryAt(pages, chains[b], i, s)) ==> j == i && u == s;
  }

  lemma EntryKept(content: map<Bytes, Ptr>, t: FieldType, buckets: nat, c: nat, e: HashEntry, key: Bytes)
    requires buckets > 0 && EntryOk(content, t, buckets, c, e) && e.key != key
    ensures EntryOk(content - {key}, t, buckets, c, e)
  {
    hide Home;
  }

  lemma CutOneEntry(pages: seq<Bucket>, pages': seq<Bucket>, chain: seq<nat>)
    requires OneEntry(pages, chain)
    requires forall j, u :: EntryAt(pages', chain, j, u).Some? ==> EntryAt(pages', chain, j, u) == EntryAt(pages, chain, j, u)
    ensures OneEntry(pages', chain)
  {
    hide EntryAt;
  }

  // ---------------------------------------------------------------- growing a chain

  /** A fresh page with one entry, linked after the last page of chain b. */
  function Grown(pages: seq<Bucket>, last: nat, e: HashEntry): seq<Bucket>
    requires last < |pages|
  {
    var slots: Slots<HashEntry> := [Some(e), None, None, None, None, None, None, None, None, None];
    pages[last := pages[last].(next := |pages|)] + [Bucket(slots, NULL_PAGE)]
  }

  /** Grown, in the order the pages are written. */
  lemma GrownIs(pages: seq<Bucket>, last: nat, e: HashEntry, blank: Slots<HashEntry>)
    requires last < |pages| && blank == [None, None, None, None, None, None, None, None, None, None]
    ensures Grown(pages, last, e)
         == (pages + [Bucket(blank[0 := Some(e)], NULL_PAGE)])[last := pages[last].(next := |pages|)]
  {
    assert blank[0 := Some(e)] == [Some(e), None, None, None, None, None, None, None, None, None];
  }

  lemma GrownLayout(pages: seq<Bucket>, chains: seq<seq<nat>>, buckets: nat, b: nat, e: HashEntry)
    requires Layout(pages, chains, buckets) && b < buckets
    ensures var i := |chains[b]| - 1; i >= 0 && chains[b][i] < |pages|
    ensures var n := |chains[b]|; var pages' := Grown(pages, chains[b][n - 1], e);
            var chains' := chains[b := chains[b] + [|pages|]];
            && Layout(pages', chains', buckets)
            && EntryAt(pages, chains[b], n, 0) == None
            && forall c, j, u :: 0 <= c < buckets ==>
                 EntryAt(pages', chains'[c], j, u)
                 == if c == b && j == n && u == 0 then Some(e) else EntryAt(pages, chains[c], j, u)
  {
    assert Chained(pages, chains[b], b) && LinkOk(pages, chains[b], |chains[b]| - 1);
    var n := |chains[b]|;
    var pages' := Grown(pages, chains[b][n - 1], e);
    var chains' := chains[b := chains[b] + [|pages|]];
    forall c | 0 <= c < buckets ensures Chained(pages', chains'[c], c) {
      assert Chained(pages, chains[c], c);
      forall j | 0 <= j < |chains'[c]| ensures LinkOk(pages', chains'[c], j) {
        if j < |chains[c]| {
          assert LinkOk(pages, chains[c], j);
        }
      }
    }
    GrownDisjoint(pages, chains, b);
    forall c, j, u | 0 <= c < buckets
      ensures EntryAt(pages', chains'[c], j, u)
           == if c == b && j == n && u == 0 then Some(e) else EntryAt(pages, chains[c], j, u)
    {
      if 0 <= j < |chains[c]| {
        assert Chained(pages, chains[c], c) && LinkOk(pages, chains[c], j);
      }
    }
  }

  lemma GrownDisjoint(pages: seq<Bucket>, chains: seq<seq<nat>>, b: nat)
    requires b < |chains| && Disjoint(chains) && forall c :: 0 <= c < |chains| ==> Chained(pages, chains[c], c)
    ensures Disjoint(chains[b := chains[b] + [|pages|]])
  {
    var chains' := chains[b := chains[b] + [|pages|]];
    forall c, i | 0 <= c < |chains| && 0 <= i < |chains[c]| ensures chains[c][i] < |pages| {
      assert Chained(pages, chains[c], c) && LinkOk(pages, chains[c], i);
    }
  }

  /** A new entry in a free slot of the i-th page of its chain. */
  lemma SlotTaken(pages: seq<Bucket>, chains: seq<seq<nat>>, buckets: nat, t: FieldType, content: map<Bytes, Ptr>,
                  i: nat, s: nat, e: HashEntry)
    requires Holds(pages, chains, buckets, t, content) && e.key !in content && s < MAX_SLOTS
    requires var chain := chains[Home(e.key, t, buckets)];
             && i < |chain| && chain[i] < |pages| && s < |pages[chain[i]].slots| && pages[chain[i]].slots[s] == None
    ensures Holds(SetSlot(pages, chains[Home(e.key, t, buckets)][i], s, Some(e)), chains, buckets, t, content[e.key := e.ptr])
  {
    hide Home;
    var b := Home(e.key, t, buckets);
    SetSlotLayout(pages, chains, buckets, b, i, s, Some(e));
    PutHolds(pages, SetSlot(pages, chains[b][i], s, Some(e)), chains, chains, buckets, t, content, e.key, e.ptr, i, s);
  }

  /** A new entry in an overflow page. */
  lemma Overflowed(pages: seq<Bucket>, chains: seq<seq<nat>>, buckets: nat, t: FieldType, content: map<Bytes, Ptr>, e: HashEntry)
    requires Holds(pages, chains, buckets, t, content) && e.key !in content
    ensures var chain := chains[Home(e.key, t, buckets)]; |chain| >= 1 && chain[|chain| - 1] < |pages|
    ensures var b := Home(e.key, t, buckets); var chain := chains[b];
            Holds(Grown(pages, chain[|chain| - 1], e), chains[b := chain + [|pages|]], buckets, t, content[e.key := e.ptr])
  {
    hide Home;
    var b := Home(e.key, t, buckets);
    GrownLayout(pages, chains, buckets, b, e);
    var chain := chains[b];
    PutHolds(pages, Grown(pages, chain[|chain| - 1], e), chains, chains[b := chain + [|pages|]], buckets, t, content, e.key, e.ptr,
             |chain|, 0);
  }

  /** The slot of a key emptied. */
  lemma SlotFreed(pages: seq<Bucket>, chains: seq<seq<nat>>, buckets: nat, t: FieldType, content: map<Bytes, Ptr>,
                  b: nat, i: nat, s: nat, key: Bytes)
    requires Holds(pages, chains, buckets, t, content) && b < buckets && b < |chains| && i < |chains[b]| && s < MAX_SLOTS
    requires EntryAt(pages, chains[b], i, s).Some? && EntryAt(pages, chains[b], i, s).value.key == key
    ensures chains[b][i] < |pages| && s < |pages[chains[b][i]].slots| && key in content
    ensures Holds(SetSlot(pages, chains[b][i], s, None), chains, buckets, t, content - {key})
    ensures OnPage(pages, chains[b], i, HashEntry(key, content[key]))
  {
    hide Home;
    KeyHeld(pages, chains, buckets, t, content, b, i, s);
    SetSlotLayout(pages, chains, buckets, b, i, s, None);
    CutHolds(pages, SetSlot(pages, chains[b][i], s, None), chains, buckets, t, content, key, b, i, s);
  }

  lemma NotHeld(pages: seq<Bucket>, chains: seq<seq<nat>>, buckets: nat, t: FieldType, content: map<Bytes, Ptr>,
                b: nat, i: nat, key: Bytes)
    requires Holds(pages, chains, buckets, t, content) && b < buckets && b < |chains| && i >= |chains[b]|
    requires buckets > 0 && NotBefore(pages, chains[b], i, 0, key) && Home(key, t, buckets) == b
    ensures key !in content
  {
    hide Home;
    NowhereInChain(pages, chains[b], i, key);
  }

  lemma HoldsBuckets(pages: seq<Bucket>, chains: seq<seq<nat>>, buckets: nat, t: FieldType, content: map<Bytes, Ptr>)
    requires Holds(pages, chains, buckets, t, content)
    ensures buckets >= 1
  {
  }

  lemma HoldsLink(pages: seq<Bucket>, chains: seq<seq<nat>>, buckets: nat, t: FieldType, content: map<Bytes, Ptr>, b: nat, i: nat)
    requires Holds(pages, chains, buckets, t, content) && b < buckets && b < |chains| && i < |chains[b]|
    ensures LinkOk(pages, chains[b], i)
  {
    assert Chained(pages, chains[b], b);
  }

  lemma HoldsChain(pages: seq<Bucket>, chains: seq<seq<nat>>, buckets: nat, t: FieldType, content: map<Bytes, Ptr>, b: nat)
    requires Holds(pages, chains, buckets, t, content) && b < buckets
    ensures |chains| == buckets && |chains[b]| >= 1 && chains[b][0] == b && ChainPages(pages, chains[b])
  {
    LayoutChain(pages, chains, buckets, b);
    assert Chained(pages, chains[b], b);
  }

  /** No entry of the chain before slot s of its i-th page has the key. */
  ghost predicate NotBefore(pages: seq<Bucket>, chain: seq<nat>, i: nat, s: nat, key: Bytes) {
    forall j, u :: j < i || (j == i && u < s) ==>
      EntryAt(pages, chain, j, u).None? || EntryAt(pages, chain, j, u).value.key != key
  }

  lemma NowhereInChain(pages: seq<Bucket>, chain: seq<nat>, i: nat, key: Bytes)
    requires NotBefore(pages, chain, i, 0, key) && i >= |chain|
    ensures forall ptr :: !HasEntry(pages, chain, key, ptr)
  {
    forall j, u, ptr ensures EntryAt(pages, chain, j, u) != Some(HashEntry(key, ptr)) {
      if j < |chain| {
        assert EntryAt(pages, chain, j, u).None? || EntryAt(pages, chain, j, u).value.key != key;
      }
    }
  }

  // ---------------------------------------------------------------- slots that fit their page

  /** Entries stand only in slots inside the page. */
  predicate SlotsFit(pageSize: nat, pages: seq<Bucket>) {
    forall p, s :: 0 <= p < |pages| && 0 <= s < |pages[p].slots| && pages[p].slots[s].Some? ==> SlotFits(pageSize, s, ENTRY_SIZE)
  }

  predicate ChainPages(pages: seq<Bucket>, chain: seq<nat>) {
    forall i :: 0 <= i < |chain| ==> chain[i] < |pages| && |pages[chain[i]].slots| == MAX_SLOTS
  }

  /** The slot the next entry of a chain goes to: the first free one, or slot 0 of an overflow page. */
  function ChainSlot(pages: seq<Bucket>, chain: seq<nat>, i: nat): (s: nat)
    requires i <= |chain| && ChainPages(pages, chain)
    ensures s < MAX_SLOTS
    decreases |chain| - i
  {
    if i == |chain| then 0
    else
      var s := FirstFree(pages[chain[i]].slots, MAX_SLOTS, 0);
      if s < MAX_SLOTS then s else ChainSlot(pages, chain, i + 1)
  }

  /** Slot s of the i-th page is the first free one of the chain, or slot 0 of a page after its last. */
  ghost predicate FirstFreeAt(pages: seq<Bucket>, chain: seq<nat>, i: nat, s: nat) {
    && i <= |chain| && s < MAX_SLOTS && EntryAt(pages, chain, i, s) == None && (i == |chain| ==> s == 0)
    && forall j, u :: 0 <= j < |chain| && 0 <= u < MAX_SLOTS && (j < i || (j == i && u < s)) ==> EntryAt(pages, chain, j, u).Some?
  }

  /** Where the entry went: the first free slot, and a page more only when there was none. */
  ghost predicate WentTo(pages: seq<Bucket>, chain: seq<nat>, pages': seq<Bucket>, chain': seq<nat>, e: HashEntry, i: nat, s: nat) {
    && FirstFreeAt(pages, chain, i, s) && EntryAt(pages', chain', i, s) == Some(e)
    && |pages'| == |pages| + if i == |chain| then 1 else 0
  }

  /** The entry stands on the i-th page. */
  ghost predicate OnPage(pages: seq<Bucket>, chain: seq<nat>, i: int, e: HashEntry) {
    exists s :: EntryAt(pages, chain, i, s) == Some(e)
  }

  /** No free slot before the i-th page. */
  ghost predicate FullBefore(pages: seq<Bucket>, chain: seq<nat>, i: nat) {
    forall j, u :: 0 <= j < i && 0 <= u < MAX_SLOTS ==> EntryAt(pages, chain, j, u).Some?
  }

  lemma NoneBefore(pages: seq<Bucket>, chain: seq<nat>)
    ensures FullBefore(pages, chain, 0)
  {
  }

  lemma FullOnward(pages: seq<Bucket>, chain: seq<nat>, i: nat)
    requires FullBefore(pages, chain, i) && ChainPages(pages, chain) && i < |chain|
    requires FirstFree(pages[chain[i]].slots, MAX_SLOTS, 0) == MAX_SLOTS
    ensures FullBefore(pages, chain, i + 1)
  {
    forall j, u | 0 <= j < i + 1 && 0 <= u < MAX_SLOTS ensures EntryAt(pages, chain, j, u).Some? {
      if j == i {
        assert pages[chain[i]].slots[u].Some?;
      }
    }
  }

  lemma FreeHere(pages: seq<Bucket>, chain: seq<nat>, i: nat, s: nat)
    requires FullBefore(pages, chain, i) && ChainPages(pages, chain) && i < |chain| && s < MAX_SLOTS
    requires s == FirstFree(pages[chain[i]].slots, MAX_SLOTS, 0)
    ensures FirstFreeAt(pages, chain, i, s)
  {
    forall j, u | 0 <= j < |chain| && 0 <= u < MAX_SLOTS && (j < i || (j == i && u < s))
      ensures EntryAt(pages, chain, j, u).Some?
    {
      if j == i {
        assert pages[chain[i]].slots[u].Some?;
      }
    }
  }

  lemma WentToSlot(pages: seq<Bucket>, chain: seq<nat>, i: nat, s: nat, e: HashEntry)
    requires FullBefore(pages, chain, i) && ChainPages(pages, chain) && i < |chain| && s < MAX_SLOTS
    requires s == FirstFree(pages[chain[i]].slots, MAX_SLOTS, 0)
    ensures WentTo(pages, chain, SetSlot(pages, chain[i], s, Some(e)), chain, e, i, s)
  {
    FreeHere(pages, chain, i, s);
  }

  lemma WentToNew(pages: seq<Bucket>, chain: seq<nat>, e: HashEntry)
    requires chain != [] && FullBefore(pages, chain, |chain|) && ChainPages(pages, chain)
    ensures WentTo(pages, chain, Grown(pages, chain[|chain| - 1], e), chain + [|pages|], e, |chain|, 0)
    ensures FirstFreeAt(pages, chain, |chain|, 0)
  {
  }

  lemma LayoutChain(pages: seq<Bucket>, chains: seq<seq<nat>>, buckets: nat, b: nat)
    requires Layout(pages, chains, buckets) && b < buckets
    ensures ChainPages(pages, chains[b])
  {
    assert Chained(pages, chains[b], b);
    forall i | 0 <= i < |chains[b]| ensures chains[b][i] < |pages| && |pages[chains[b][i]].slots| == MAX_SLOTS {
      assert LinkOk(pages, chains[b], i);
    }
  }

  lemma SetSlotFits(pageSize: nat, pages: seq<Bucket>, pid: nat, s: nat, e: Option<HashEntry>)
    requires SlotsFit(pageSize, pages) && pid < |pages| && s < |pages[pid].slots|
    requires e.Some? ==> SlotFits(pageSize, s, ENTRY_SIZE)
    ensures SlotsFit(pageSize, SetSlot(pages, pid, s, e))
  {
    hide SlotFits;
  }

  /** A full page has its last slot inside, so an overflow page takes its first entry. */
  lemma GrownFits(pageSize: nat, pages: seq<Bucket>, last: nat, e: HashEntry)
    requires SlotsFit(pageSize, pages) && last < |pages| && |pages[last].slots| == MAX_SLOTS
    requires FirstFree(pages[last].slots, MAX_SLOTS, 0) == MAX_SLOTS
    ensures SlotFits(pageSize, 0, ENTRY_SIZE) && SlotsFit(pageSize, Grown(pages, last, e))
  {
    hide SlotOffset;
    assert pages[last].slots[MAX_SLOTS - 1].Some?;
    OffsetGrows(0, MAX_SLOTS - 1, ENTRY_SIZE);
  }

  /** Every slot of a bucket page fits exactly on pages of at least 432 bytes. */
  lemma BucketFits(pageSize: nat)
    ensures (forall s :: 0 <= s < MAX_SLOTS ==> SlotFits(pageSize, s, ENTRY_SIZE)) <==> pageSize >= 432
  {
    assert SlotFits(pageSize, MAX_SLOTS - 1, ENTRY_SIZE) <==> pageSize >= 432;
    hide SlotOffset;
    if pageSize >= 432 {
      forall s: nat | s < MAX_SLOTS ensures SlotFits(pageSize, s, ENTRY_SIZE) {
        OffsetGrows(s, MAX_SLOTS - 1, ENTRY_SIZE);
      }
    }
  }

  class HashIndex {
    const pageSize: nat
    const keyType: FieldType
    const buckets: nat
    var pages: seq<Bucket>
    ghost var chains: seq<seq<nat>>
    ghost var content: map<Bytes, Ptr>

    ghost predicate Valid()
      reads this
    {
      Holds(pages, chains, buckets, keyType, content) && SlotsFit(pageSize, pages)
    }

    constructor (pageSize: nat, buckets: nat, keyType: FieldType)
      ensures this.pageSize == pageSize && this.buckets == buckets && this.keyType == keyType && pages == []
    {
      this.pageSize, this.buckets, this.keyType := pageSize, buckets, keyType;
      pages, chains, content := [], [], map[];
    }

    /** `build_empty`: one empty page per bucket. */
    method BuildEmpty()
      requires buckets >= 1 && pages == []
      modifies this
      ensures Valid() && content == map[] && |pages| == buckets
    {
      var blank: Slots<HashEntry> := [None, None, None, None, None, None, None, None, None, None];
      for b := 0 to buckets
        invariant |pages| == b && forall p :: 0 <= p < b ==> pages[p] == Bucket(blank, NULL_PAGE)
      {
        pages := pages + [Bucket(blank, NULL_PAGE)];
      }
      chains := seq(buckets, b => [b]);
      content := map[];
      assert forall b, i, s :: 0 <= b < buckets ==> EntryAt(pages, chains[b], i, s) == None;
    }

    /** The slot for the next entry of the key's bucket lies inside the page. */
    ghost predicate HasRoom(value: Value)
      reads this
      requires Valid()
    {
      var b := HashKey(value, buckets);
      LayoutChain(pages, chains, buckets, b);
      SlotFits(pageSize, ChainSlot(pages, chains[b], 0), ENTRY_SIZE)
    }

    /** A key that is not in the index goes into the first page of its chain with a free slot, or
        into a fresh page at the end of the chain; a slot that reaches past the end of its page is refused. */
    method Insert(value: Value, ptr: Ptr) returns (ok: bool, visited: nat)
      requires Valid() && Storable(value) && OfType(value, keyType) && EncodeKey(value) !in content
      modifies this
      ensures Valid() && (ok <==> old(HasRoom(value)))
      ensures content == if ok then old(content)[EncodeKey(value) := ptr] else old(content)
      ensures !ok ==> pages == old(pages) && chains == old(chains)
      ensures var b := HashKey(value, buckets);
              && |old(chains)| == |chains| == buckets
              && exists i: nat, s: nat :: FirstFreeAt(old(pages), old(chains)[b], i, s) && visited == i + 1
                   && (ok ==> WentTo(old(pages), old(chains)[b], pages, chains[b], HashEntry(EncodeKey(value), ptr), i, s))
    {
      hide EncodeKey, HashKey, Home, SlotsFit, SlotFits, ChainPages, Holds, FirstFree, WentTo, FullBefore, FirstFreeAt;
      var entry := HashEntry(EncodeKey(value), ptr);
      HoldsBuckets(pages, chains, buckets, keyType, content);
      var pid := HashKey(value, buckets);
      HomeIsHash(value, keyType, buckets);
      ghost var b, i: nat := pid, 0;
      HoldsChain(pages, chains, buckets, keyType, content, b);
      ghost var chain := chains[b];
      visited := 0;
      NoneBefore(pages, chain);
      while true
        invariant pages == old(pages) && chains == old(chains) && content == old(content)
        invariant i < |chain| && pid == chain[i] && visited == i
        invariant ChainSlot(pages, chain, i) == ChainSlot(pages, chain, 0)
        invariant FullBefore(pages, chain, i)
        decreases |chain| - i
      {
        HoldsLink(pages, chains, buckets, keyType, content, b, i);
        var page := pages[pid];
        visited := visited + 1;
        var slot := FindFreeSlot(page.slots, MAX_SLOTS);
        if slot != -1 {
          FreeHere(pages, chain, i, slot);
          if !SlotFits(pageSize, slot, ENTRY_SIZE) {
            return false, visited;
          }
          SetSlotFits(pageSize, pages, pid, slot, Some(entry));
          SlotTaken(pages, chains, buckets, keyType, content, i, slot, entry);
          WentToSlot(pages, chain, i, slot, entry);
          pages := pages[pid := page.(slots := page.slots[slot := Some(entry)])];
          content := content[entry.key := ptr];
          return true, visited;
        }
        FullOnward(pages, chain, i);
        if page.next != NULL_PAGE {
          pid := page.next;
          i := i + 1;
          continue;
        }
        GrownFits(pageSize, pages, pid, entry);
        Overflowed(pages, chains, buckets, keyType, content, entry);
        WentToNew(pages, chain, entry);
        ghost var chains' := chains[b := chain + [|pages|]];
        var newPid := |pages|;
        var blank: Slots<HashEntry> := [None, None, None, None, None, None, None, None, None, None];
        pages := pages + [Bucket(blank[0 := Some(entry)], NULL_PAGE)];
        pages := pages[pid := page.(next := newPid)];
        GrownIs(old(pages), pid, entry, blank);
        chains := chains';
        content := content[entry.key := ptr];
        assert WentTo(old(pages), chain, pages, chains[b], entry, |chain|, 0);
        return true, visited + 1;
      }
    }

    /** The pages read on the way to the key's entry, or to the end of its chain when there is none. */
    ghost predicate ReadTo(value: Value, visited: nat)
      reads this
      requires Valid() && Storable(value)
    {
      var b, key := HashKey(value, buckets), EncodeKey(value);
      if key in content then OnPage(pages, chains[b], visited - 1, HashEntry(key, content[key]))
      else visited == |chains[b]|
    }

    /** Exact lookup. */
    method LookupPointer(value: Value) returns (r: Option<Ptr>, visited: nat)
      requires Valid() && Storable(value) && OfType(value, keyType)
      ensures r == if EncodeKey(value) in content then Some(content[EncodeKey(value)]) else None
      ensures ReadTo(value, visited)
    {
      hide EncodeKey, HashKey, Home, SlotsFit;
      var needle := EncodeKey(value);
      var pid: int := HashKey(value, buckets);
      HomeIsHash(value, keyType, buckets);
      ghost var b, i: nat := pid, 0;
      ghost var chain := chains[b];
      assert Chained(pages, chain, b);
      visited := 0;
      while pid != NULL_PAGE
        invariant i <= |chain| && pid == (if i < |chain| then chain[i] else NULL_PAGE) && visited == i
        invariant NotBefore(pages, chain, i, 0, needle)
        decreases |chain| - i
      {
        assert Chained(pages, chain, b) && LinkOk(pages, chain, i);
        var page := pages[pid];
        visited := visited + 1;
        for slot := 0 to MAX_SLOTS
          invariant NotBefore(pages, chain, i, slot, needle)
        {
          assert EntryAt(pages, chain, i, slot) == page.slots[slot];
          if page.slots[slot].Some? && page.slots[slot].value.key == needle {
            assert EntryOk(content, keyType, buckets, b, page.slots[slot].value);
            assert OnPage(pages, chain, visited - 1, HashEntry(needle, content[needle]));
            return Some(page.slots[slot].value.ptr), visited;
          }
        }
        pid := page.next;
        i := i + 1;
      }
      NowhereInChain(pages, chain, i, needle);
      return None, visited;
    }

    /** Removal; the slot becomes free, the pages stay linked. */
    method DeleteKey(value: Value) returns (deleted: bool, visited: nat)
      requires Valid() && Storable(value) && OfType(value, keyType)
      modifies this
      ensures Valid() && content == old(content) - {EncodeKey(value)}
      ensures deleted <==> EncodeKey(value) in old(content)
      ensures chains == old(chains) && |pages| == |old(pages)| && old(ReadTo(value, visited))
    {
      hide EncodeKey, HashKey, Home, SlotsFit, Holds, OnPage;
      var needle := EncodeKey(value);
      HoldsBuckets(pages, chains, buckets, keyType, content);
      var pid: int := HashKey(value, buckets);
      HomeIsHash(value, keyType, buckets);
      ghost var b, i: nat := pid, 0;
      HoldsChain(pages, chains, buckets, keyType, content, b);
      ghost var chain := chains[b];
      visited := 0;
      while pid != NULL_PAGE
        invariant pages == old(pages) && chains == old(chains) && content == old(content)
        invariant i <= |chain| && pid == (if i < |chain| then chain[i] else NULL_PAGE) && visited == i
        invariant NotBefore(pages, chain, i, 0, needle)
        decreases |chain| - i
      {
        HoldsLink(pages, chains, buckets, keyType, content, b, i);
        var page := pages[pid];
        visited := visited + 1;
        for slot := 0 to MAX_SLOTS
          invariant pages == old(pages) && chains == old(chains) && content == old(content)
          invariant NotBefore(pages, chain, i, slot, needle)
        {
          assert EntryAt(pages, chain, i, slot) == page.slots[slot];
          if page.slots[slot].Some? && page.slots[slot].value.key == needle {
            SetSlotFits(pageSize, pages, pid, slot, None);
            SlotFreed(pages, chains, buckets, keyType, content, b, i, slot, needle);
            pages := pages[pid := page.(slots := page.slots[slot := None])];
            content := content - {needle};
            return true, visited;
          }
        }
        pid := page.next;
        i := i + 1;
      }
      NotHeld(pages, chains, buckets, keyType, content, b, i, needle);
      return false, visited;
    }
  }
}
