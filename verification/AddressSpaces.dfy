/**
 * Copy-on-write address spaces: page-table entries as a flat map from (space, page) to an entry,
 * frame contents, and the frame reference counts that decide when a write must copy.
 */
module AddressSpaces {

  type Page = map<nat, nat> // offset to byte; an absent byte is zero

  const ZERO_PAGE: Page := map[]

  const USER_PAGES: nat := 0x8_0000_0000 // 256 * 512 * 512 * 512

  const REF_LIMIT: nat := 0xFFFF

  type Key = (nat, nat) // space, page

  /** A present entry: the frame, VMM_WRITE, and the software bit VMM_COW. */
  datatype Pte = Pte(frame: nat, write: bool, cow: bool)

  /** What the VMA table says about a page. */
  datatype Area = Untracked | Tracked(owned: bool, shared: bool)

  function AreaAt(areas: map<Key, Area>, k: Key): Area {
    if k in areas then areas[k] else Untracked
  }

  predicate IsShared(areas: map<Key, Area>, k: Key) {
    AreaAt(areas, k).Tracked? && AreaAt(areas, k).shared
  }

  /** The entries on a frame. */
  ghost function Mappers(ptes: map<Key, Pte>, f: nat): set<Key> {
    set k | k in ptes && ptes[k].frame == f
  }

  /** Everything the operations change. */
  datatype Image = Image(ptes: map<Key, Pte>, areas: map<Key, Area>, refs: seq<nat>, free: set<nat>, mem: map<nat, Page>)

  /** The frame of an entry is allocated, and its count is the number of entries on it. Frames beyond the
      count table are never shared. */
  ghost predicate EntryOk(s: Image, k: Key)
    requires k in s.ptes
  {
    var f := s.ptes[k].frame;
    f !in s.free && |Mappers(s.ptes, f)| == if f < |s.refs| then s.refs[f] else 1
  }

  /** A writable private entry is the only entry on its frame, and a COW entry is private and read-only. */
  ghost predicate SoleWriter(s: Image, k: Key)
    requires k in s.ptes
  {
    && (s.ptes[k].write && !IsShared(s.areas, k) ==> Mappers(s.ptes, s.ptes[k].frame) == {k})
    && (s.ptes[k].cow ==> !s.ptes[k].write && !IsShared(s.areas, k))
  }

  /** A store through the entry is legitimate, at once or after a COW fault. */
  predicate MayStore(e: Pte) {
    e.write || e.cow
  }

  /** The pages that may be written to. */
  ghost function Stores(s: Image): set<Key> {
    set k | k in s.ptes && MayStore(s.ptes[k])
  }

  lemma StoresReflag(s: Image, s': Image, k: Key)
    requires k in s.ptes && s'.ptes.Keys == s.ptes.Keys && MayStore(s'.ptes[k]) == MayStore(s.ptes[k])
    requires forall m :: m in s.ptes && m != k ==> s'.ptes[m] == s.ptes[m]
    ensures Stores(s') == Stores(s)
  {}

  lemma StoresAttach(s: Image, s': Image, k: Key, e: Pte)
    requires k !in s.ptes && s'.ptes == s.ptes[k := e]
    ensures Stores(s') == if MayStore(e) then Stores(s) + {k} else Stores(s)
  {}

  /** What the frame allocator and the page-table code answer to one request. */
  datatype Answer = Answer(frame: bool, table: bool)

  /** The frame has a count, and the count is one. */
  predicate SoleRef(refs: seq<nat>, f: nat) {
    f < |refs| && refs[f] == 1
  }

  /** Entries on one frame are all shared or all private. */
  ghost predicate Agree(s: Image, k: Key, l: Key)
    requires k in s.ptes && l in s.ptes
  {
    s.ptes[k].frame == s.ptes[l].frame ==> IsShared(s.areas, k) == IsShared(s.areas, l)
  }

  predicate Backed(s: Image) {
    forall k :: k in s.ptes ==> s.ptes[k].frame in s.mem
  }

  ghost predicate Inv(s: Image) {
    && Backed(s)
    && (forall k :: k in s.ptes ==> EntryOk(s, k))
    && (forall k :: k in s.ptes ==> SoleWriter(s, k))
    && (forall k, l :: k in s.ptes && l in s.ptes ==> Agree(s, k, l))
  }

  predicate Seen(ptes: map<Key, Pte>, areas: map<Key, Area>, mem: map<nat, Page>, k: Key) {
    k in ptes && !IsShared(areas, k) && ptes[k].frame in mem
  }

  ghost function ViewOf(ptes: map<Key, Pte>, areas: map<Key, Area>, mem: map<nat, Page>): map<Key, Page> {
    map k | k in ptes && Seen(ptes, areas, mem, k) :: if Seen(ptes, areas, mem, k) then mem[ptes[k].frame]
                                                      else ZERO_PAGE
  }

  /** What processes see in their private pages. */
  ghost function PrivateView(s: Image): map<Key, Page> {
    ViewOf(s.ptes, s.areas, s.mem)
  }

  lemma ViewReflag(ptes: map<Key, Pte>, areas: map<Key, Area>, mem: map<nat, Page>, k: Key, e: Pte)
    requires k in ptes && e.frame == ptes[k].frame
    ensures ViewOf(ptes[k := e], areas, mem) == ViewOf(ptes, areas, mem)
  {}

  lemma ViewAttach(ptes: map<Key, Pte>, areas: map<Key, Area>, mem: map<nat, Page>, k: Key, e: Pte)
    requires k !in ptes && e.frame in mem
    ensures ViewOf(ptes[k := e], areas, mem)
         == if IsShared(areas, k) then ViewOf(ptes, areas, mem) else ViewOf(ptes, areas, mem)[k := mem[e.frame]]
  {}

  // ---- how the entries on a frame change ----

  lemma MappersAttach(ptes: map<Key, Pte>, k: Key, e: Pte, f: nat)
    requires k !in ptes
    ensures Mappers(ptes[k := e], f) == if e.frame == f then Mappers(ptes, f) + {k} else Mappers(ptes, f)
    ensures |Mappers(ptes[k := e], f)| == |Mappers(ptes, f)| + if e.frame == f then 1 else 0
  {}

  lemma MappersDetach(ptes: map<Key, Pte>, k: Key, f: nat)
    requires k in ptes
    ensures Mappers(ptes - {k}, f) == Mappers(ptes, f) - {k}
    ensures |Mappers(ptes - {k}, f)| == |Mappers(ptes, f)| - if ptes[k].frame == f then 1 else 0
  {}

  lemma MappersReflag(ptes: map<Key, Pte>, k: Key, e: Pte, f: nat)
    requires k in ptes && e.frame == ptes[k].frame
    ensures Mappers(ptes[k := e], f) == Mappers(ptes, f)
  {}

  /** Counts after `pmm_ref_set`. */
  function SetRef(refs: seq<nat>, f: nat): seq<nat> {
    if f < |refs| then refs[f := 1] else refs
  }

  /** Mapping a page to a frame fresh from the allocator. */
  function Attached(s: Image, k: Key, e: Pte, page: Page): Image {
    Image(s.ptes[k := e], s.areas, SetRef(s.refs, e.frame), s.free - {e.frame}, s.mem[e.frame := page])
  }

  lemma FreeUnmapped(s: Image, f: nat)
    requires Inv(s) && f in s.free
    ensures Mappers(s.ptes, f) == {} && forall k :: k in s.ptes ==> s.ptes[k].frame != f
  {}

  lemma AttachKeeps(s: Image, k: Key, e: Pte, page: Page)
    requires Inv(s) && k !in s.ptes && e.frame in s.free && (e.cow ==> !e.write && !IsShared(s.areas, k))
    ensures Inv(Attached(s, k, e, page))
  {
    var s' := Attached(s, k, e, page);
    FreeUnmapped(s, e.frame);
    forall l | l in s'.ptes ensures EntryOk(s', l) && SoleWriter(s', l) {
      MappersAttach(s.ptes, k, e, s'.ptes[l].frame);
      assert l == k || (EntryOk(s, l) && SoleWriter(s, l));
    }
    forall l, m | l in s'.ptes && m in s'.ptes ensures Agree(s', l, m) {
      assert l == k || m == k || Agree(s, l, m);
    }
  }

  lemma AttachView(s: Image, k: Key, e: Pte, page: Page)
    requires Inv(s) && k !in s.ptes && e.frame in s.free
    ensures PrivateView(Attached(s, k, e, page)) == if IsShared(s.areas, k) then PrivateView(s)
                                                    else PrivateView(s)[k := page]
  {}

  // ---- sharing an entry with a forked space ----

  /** The entry both spaces get: a private writable page turns read-only and COW. */
  function CowEntry(e: Pte, shared: bool): Pte {
    if e.write && !shared then Pte(e.frame, false, true) else e
  }

  function Shared(s: Image, k: Key, l: Key): Image
    requires k in s.ptes && s.ptes[k].frame < |s.refs|
  {
    var e := CowEntry(s.ptes[k], IsShared(s.areas, k));
    s.(ptes := s.ptes[l := e][k := e], refs := s.refs[e.frame := s.refs[e.frame] + 1])
  }

  lemma MappersShare(s: Image, k: Key, l: Key, f: nat)
    requires k in s.ptes && s.ptes[k].frame < |s.refs| && l !in s.ptes
    ensures Mappers(Shared(s, k, l).ptes, f) == if s.ptes[k].frame == f then Mappers(s.ptes, f) + {l}
                                                else Mappers(s.ptes, f)
    ensures |Mappers(Shared(s, k, l).ptes, f)| == |Mappers(s.ptes, f)| + if s.ptes[k].frame == f then 1 else 0
  {}

  lemma ShareEntry(s: Image, k: Key, l: Key, m: Key)
    requires Inv(s) && k in s.ptes && s.ptes[k].frame < |s.refs| && l !in s.ptes
    requires IsShared(s.areas, l) == IsShared(s.areas, k)
    requires m in Shared(s, k, l).ptes
    ensures EntryOk(Shared(s, k, l), m) && SoleWriter(Shared(s, k, l), m)
  {
    var f := s.ptes[k].frame;
    assert EntryOk(s, k) && SoleWriter(s, k) && k in Mappers(s.ptes, f);
    if m == l {
      MappersShare(s, k, l, f);
    } else {
      MappersShare(s, k, l, s.ptes[m].frame);
      assert EntryOk(s, m) && SoleWriter(s, m) && Agree(s, m, k);
      if m != k && s.ptes[m].frame == f { assert m in Mappers(s.ptes, f) && Mappers(s.ptes, f) != {m}; }
    }
  }

  lemma ShareKeeps(s: Image, k: Key, l: Key)
    requires Inv(s) && k in s.ptes && s.ptes[k].frame < |s.refs| && l !in s.ptes
    requires IsShared(s.areas, l) == IsShared(s.areas, k)
    ensures Inv(Shared(s, k, l))
  {
    var s' := Shared(s, k, l);
    forall m | m in s'.ptes ensures EntryOk(s', m) && SoleWriter(s', m) { ShareEntry(s, k, l, m); }
    forall m, n | m in s'.ptes && n in s'.ptes ensures Agree(s', m, n) {
      assert Agree(s, if m == l then k else m, if n == l then k else n);
    }
  }

  lemma ShareView(s: Image, k: Key, l: Key)
    requires Inv(s) && k in s.ptes && s.ptes[k].frame < |s.refs| && l !in s.ptes
    requires IsShared(s.areas, l) == IsShared(s.areas, k)
    ensures PrivateView(Shared(s, k, l)) == if IsShared(s.areas, k) then PrivateView(s)
                                            else PrivateView(s)[l := PrivateView(s)[k]]
  {
    var e := CowEntry(s.ptes[k], IsShared(s.areas, k));
    ViewAttach(s.ptes, s.areas, s.mem, l, e);
    ViewReflag(s.ptes[l := e], s.areas, s.mem, k, e);
  }

  // ---- dropping an entry ----

  /** Counts after `pmm_free`. */
  function DropRef(refs: seq<nat>, f: nat): seq<nat> {
    if f < |refs| && refs[f] > 0 then refs[f := refs[f] - 1] else refs
  }

  /** `pmm_free` hands the frame back to the allocator. */
  predicate LastRef(refs: seq<nat>, f: nat) {
    f >= |refs| || refs[f] == 1
  }

  function Detached(s: Image, k: Key): Image
    requires k in s.ptes
  {
    var f := s.ptes[k].frame;
    s.(ptes := s.ptes - {k}, refs := DropRef(s.refs, f), free := if LastRef(s.refs, f) then s.free + {f} else s.free)
  }

  lemma TwoMappers(ptes: map<Key, Pte>, f: nat, k: Key, m: Key)
    requires k in ptes && m in ptes && k != m && ptes[k].frame == f && ptes[m].frame == f
    ensures |Mappers(ptes, f)| >= 2
  {
    MappersDetach(ptes, k, f);
    assert m in Mappers(ptes - {k}, f);
  }

  lemma DetachKeeps(s: Image, k: Key)
    requires Inv(s) && k in s.ptes
    ensures Inv(Detached(s, k))
  {
    var s' := Detached(s, k);
    assert EntryOk(s, k);
    forall m | m in s'.ptes ensures EntryOk(s', m) && SoleWriter(s', m) {
      var f := s.ptes[m].frame;
      assert EntryOk(s, m) && SoleWriter(s, m);
      MappersDetach(s.ptes, k, f);
      if f == s.ptes[k].frame { TwoMappers(s.ptes, f, k, m); }
    }
    forall m, n | m in s'.ptes && n in s'.ptes ensures Agree(s', m, n) { assert Agree(s, m, n); }
  }

  lemma DetachView(s: Image, k: Key)
    requires k in s.ptes
    ensures PrivateView(Detached(s, k)) == PrivateView(s) - {k}
  {}

  // ---- a COW fault ----

  function Writable(s: Image, k: Key): Image
    requires k in s.ptes
  {
    s.(ptes := s.ptes[k := Pte(s.ptes[k].frame, true, false)])
  }

  lemma OneMapper(ptes: map<Key, Pte>, f: nat, k: Key)
    requires k in ptes && ptes[k].frame == f && |Mappers(ptes, f)| == 1
    ensures Mappers(ptes, f) == {k}
  {
    MappersDetach(ptes, k, f);
    assert Mappers(ptes, f) - {k} == {} && k in Mappers(ptes, f);
  }

  /** A count of one lets the fault make the entry writable in place. */
  lemma WritableKeeps(s: Image, k: Key)
    requires Inv(s) && k in s.ptes && s.ptes[k].cow && s.ptes[k].frame < |s.refs| && s.refs[s.ptes[k].frame] == 1
    ensures Inv(Writable(s, k)) && PrivateView(Writable(s, k)) == PrivateView(s)
  {
    var s' := Writable(s, k);
    ViewReflag(s.ptes, s.areas, s.mem, k, s'.ptes[k]);
    assert EntryOk(s, k) && SoleWriter(s, k);
    OneMapper(s.ptes, s.ptes[k].frame, k);
    forall m | m in s'.ptes ensures EntryOk(s', m) && SoleWriter(s', m) {
      MappersReflag(s.ptes, k, s'.ptes[k], s.ptes[m].frame);
      assert EntryOk(s, m) && SoleWriter(s, m);
    }
    forall m, n | m in s'.ptes && n in s'.ptes ensures Agree(s', m, n) { assert Agree(s, m, n); }
  }

  /** Otherwise the page moves to a fresh frame. */
  function Copied(s: Image, k: Key, g: nat): Image
    requires k in s.ptes && s.ptes[k].frame in s.mem
  {
    Attached(Detached(s, k), k, Pte(g, true, false), s.mem[s.ptes[k].frame])
  }

  lemma PutBack(view: map<Key, Page>, k: Key)
    requires k in view
    ensures (view - {k})[k := view[k]] == view
  {}

  lemma CopyKeeps(s: Image, k: Key, g: nat)
    requires Inv(s) && k in s.ptes && s.ptes[k].cow && g in s.free
    ensures s.ptes[k].frame in s.mem && Inv(Copied(s, k, g)) && PrivateView(Copied(s, k, g)) == PrivateView(s)
  {
    assert EntryOk(s, k) && SoleWriter(s, k);
    var d := Detached(s, k);
    DetachKeeps(s, k);
    DetachView(s, k);
    AttachKeeps(d, k, Pte(g, true, false), s.mem[s.ptes[k].frame]);
    AttachView(d, k, Pte(g, true, false), s.mem[s.ptes[k].frame]);
    PutBack(PrivateView(s), k);
  }

  // ---- a store ----

  function Stored(s: Image, k: Key, page: Page): Image
    requires k in s.ptes
  {
    s.(mem := s.mem[s.ptes[k].frame := page])
  }

  lemma StoreView(s: Image, k: Key, page: Page)
    requires Inv(s) && k in s.ptes && s.ptes[k].write
    ensures PrivateView(Stored(s, k, page)) == if IsShared(s.areas, k) then PrivateView(s)
                                               else PrivateView(s)[k := page]
  {
    forall m | m in s.ptes && m != k && s.ptes[m].frame == s.ptes[k].frame
      ensures IsShared(s.areas, k) && IsShared(s.areas, m)
    {
      assert Agree(s, m, k) && SoleWriter(s, k) && m in Mappers(s.ptes, s.ptes[k].frame);
    }
  }

  /** A store through a writable private entry is seen through that entry only, a store to a shared page
      through no private entry. */
  lemma StoreKeeps(s: Image, k: Key, page: Page)
    requires Inv(s) && k in s.ptes && s.ptes[k].write
    ensures Inv(Stored(s, k, page))
    ensures PrivateView(Stored(s, k, page)) == if IsShared(s.areas, k) then PrivateView(s)
                                               else PrivateView(s)[k := page]
  {
    var s' := Stored(s, k, page);
    forall m | m in s'.ptes ensures EntryOk(s', m) && SoleWriter(s', m) { assert EntryOk(s, m) && SoleWriter(s, m); }
    forall m, n | m in s'.ptes && n in s'.ptes ensures Agree(s', m, n) { assert Agree(s, m, n); }
    StoreView(s, k, page);
  }

  // ---- the machine ----

  datatype Option = None | Some(frame: nat)

  /** What eager copying of pages 0 .. n - 1 of `src` into `dst` makes of the view. */
  ghost predicate Forked(v: map<Key, Page>, v': map<Key, Page>, dst: nat, src: nat, n: nat) {
    && (forall k :: k in v ==> k in v' && v'[k] == v[k])
    && (forall k :: k in v' ==> k in v || (k.0 == dst && k.1 < n && (src, k.1) in v))
    && (forall p: nat :: p < n && (src, p) in v ==> (dst, p) in v' && v'[(dst, p)] == v[(src, p)])
  }

  /** Eager copying leaves no choice: two views it relates to the same start are equal. */
  lemma ForkedUnique(v: map<Key, Page>, a: map<Key, Page>, b: map<Key, Page>, dst: nat, src: nat, n: nat)
    requires Forked(v, a, dst, src, n) && Forked(v, b, dst, src, n) && dst != src
    ensures forall k :: k in v && k.0 != dst ==> a[k] == b[k]
    ensures (forall k :: k in v ==> k.0 != dst) ==> a == b
  {}

  /** The pages present after pages 0 .. n - 1 of `src` were forked into `dst`. */
  ghost predicate KeysForked(keys: set<Key>, keys': set<Key>, dst: nat, src: nat, n: nat) {
    forall k: Key :: k in keys' <==> k in keys || (k.0 == dst && k.1 < n && (src, k.1) in keys)
  }

  /** Entries stay and keep their leave to be written to, those of `src` included; the new ones have the same. */
  ghost predicate EntriesForked(ptes: map<Key, Pte>, ptes': map<Key, Pte>, dst: nat, src: nat, n: nat) {
    && (forall k :: k in ptes ==> k in ptes' && MayStore(ptes'[k]) == MayStore(ptes[k]))
    && (forall k :: k in ptes && (k.0 != src || k.1 >= n) ==> k in ptes' && ptes'[k] == ptes[k])
    && (forall p: nat :: p < n && (src, p) in ptes ==>
          (dst, p) in ptes' && MayStore(ptes'[(dst, p)]) == MayStore(ptes[(src, p)]))
  }

  ghost predicate ForkedTo(s: Image, s': Image, dst: nat, src: nat, n: nat) {
    && KeysForked(s.ptes.Keys, s'.ptes.Keys, dst, src, n) && Forked(PrivateView(s), PrivateView(s'), dst, src, n)
    && EntriesForked(s.ptes, s'.ptes, dst, src, n)
  }

  /** A fork copies the leave to write along with the pages. */
  lemma ForkStores(s: Image, s': Image, dst: nat, src: nat, n: nat)
    requires ForkedTo(s, s', dst, src, n) && dst != src && forall p: nat :: (dst, p) !in s.ptes
    ensures KeysForked(Stores(s), Stores(s'), dst, src, n)
  {
    forall k: Key ensures k in Stores(s') <==> k in Stores(s) || (k.0 == dst && k.1 < n && (src, k.1) in Stores(s)) {
      assert k == (k.0, k.1);
      assert k in s'.ptes.Keys <==> k in s.ptes.Keys || (k.0 == dst && k.1 < n && (src, k.1) in s.ptes.Keys);
    }
  }

  /** `vma_copy`: the areas of `dst` become those of `src`. */
  function CopyAreas(areas: map<Key, Area>, dst: nat, src: nat): (r: map<Key, Area>)
    requires dst != src
    ensures forall k: Key :: k.0 != dst ==> AreaAt(r, k) == AreaAt(areas, k)
    ensures forall p: nat :: AreaAt(r, (dst, p)) == AreaAt(areas, (src, p))
  {
    (map k | k in areas && k.0 != dst :: areas[k]) + (map k | k in areas && k.0 == src :: (dst, k.1) := areas[k])
  }

  /** Areas of pages that are not present do not matter. */
  lemma AreasKeep(s: Image, areas: map<Key, Area>)
    requires Inv(s) && forall k :: k in s.ptes ==> AreaAt(areas, k) == AreaAt(s.areas, k)
    ensures Inv(s.(areas := areas)) && PrivateView(s.(areas := areas)) == PrivateView(s)
  {
    var s' := s.(areas := areas);
    forall k | k in s.ptes ensures EntryOk(s', k) && SoleWriter(s', k) { assert EntryOk(s, k) && SoleWriter(s, k); }
    forall k, l | k in s.ptes && l in s.ptes ensures Agree(s', k, l) { assert Agree(s, k, l); }
  }

  lemma ForkStart(s: Image, s1: Image, dst: nat, src: nat)
    requires Inv(s) && dst != src && (forall p: nat :: (dst, p) !in s.ptes)
    requires s1 == s.(areas := CopyAreas(s.areas, dst, src))
    ensures Inv(s1) && ForkedTo(s, s1, dst, src, 0)
  {
    AreasKeep(s, s1.areas);
  }

  lemma ForkReady(s: Image, s1: Image, dst: nat, src: nat, n: nat)
    requires dst != src && (forall p: nat :: (dst, p) !in s.ptes) && ForkedTo(s, s1, dst, src, n)
    requires s1.areas == CopyAreas(s.areas, dst, src)
    ensures (dst, n) !in s1.ptes && IsShared(s1.areas, (dst, n)) == IsShared(s1.areas, (src, n))
  {}

  /** What forking one page makes of the entries. */
  ghost predicate PageEntries(ptes: map<Key, Pte>, ptes': map<Key, Pte>, k: Key, l: Key, ok: bool) {
    if ok then
      && ptes'.Keys == ptes.Keys + {l} && k in ptes && k in ptes' && l in ptes'
      && (forall m :: m in ptes && m != k ==> m in ptes' && ptes'[m] == ptes[m])
      && MayStore(ptes'[k]) == MayStore(ptes[k]) == MayStore(ptes'[l])
    else ptes' == ptes
  }

  /** ... and of the view. */
  ghost predicate PageSeen(v: map<Key, Page>, v': map<Key, Page>, k: Key, l: Key, ok: bool) {
    v' == if ok && k in v then v[l := v[k]] else v
  }

  /** One page of a fork is done (or, if not `ok`, given up). */
  ghost predicate PageForked(s: Image, s': Image, dst: nat, src: nat, va: nat, ok: bool) {
    && PageEntries(s.ptes, s'.ptes, (src, va), (dst, va), ok) && s'.areas == s.areas
    && PageSeen(PrivateView(s), PrivateView(s'), (src, va), (dst, va), ok)
  }

  lemma ForkStopped(s: Image, s1: Image, s2: Image, dst: nat, src: nat, n: nat)
    requires ForkedTo(s, s1, dst, src, n) && PageForked(s1, s2, dst, src, n, false)
    ensures ForkedTo(s, s2, dst, src, n)
  {}

  lemma ForkKeysStep(keys: set<Key>, keys1: set<Key>, keys2: set<Key>, dst: nat, src: nat, n: nat)
    requires dst != src && (forall p: nat :: (dst, p) !in keys) && KeysForked(keys, keys1, dst, src, n)
    requires keys2 == if (src, n) in keys1 then keys1 + {(dst, n)} else keys1
    ensures KeysForked(keys, keys2, dst, src, n + 1)
  {}

  lemma ForkEntriesStep(ptes: map<Key, Pte>, ptes1: map<Key, Pte>, ptes2: map<Key, Pte>, dst: nat, src: nat, n: nat)
    requires dst != src && (forall p: nat :: (dst, p) !in ptes)
    requires KeysForked(ptes.Keys, ptes1.Keys, dst, src, n) && EntriesForked(ptes, ptes1, dst, src, n)
    requires if (src, n) in ptes1 then PageEntries(ptes1, ptes2, (src, n), (dst, n), true) else ptes2 == ptes1
    ensures EntriesForked(ptes, ptes2, dst, src, n + 1)
  {
    forall p: nat | p < n + 1 && (src, p) in ptes
      ensures (dst, p) in ptes2 && MayStore(ptes2[(dst, p)]) == MayStore(ptes[(src, p)])
    {
      if p < n { assert (dst, p) in ptes1 && (dst, p) != (src, n); }
    }
  }

  lemma ForkViewStep(v: map<Key, Page>, v1: map<Key, Page>, v2: map<Key, Page>, dst: nat, src: nat, n: nat)
    requires dst != src && (forall p: nat :: (dst, p) !in v) && Forked(v, v1, dst, src, n)
    requires PageSeen(v1, v2, (src, n), (dst, n), true)
    ensures Forked(v, v2, dst, src, n + 1)
  {}

  lemma ForkPageStep(s: Image, s1: Image, s2: Image, dst: nat, src: nat, n: nat)
    requires dst != src && (forall p: nat :: (dst, p) !in s.ptes) && ForkedTo(s, s1, dst, src, n)
    requires if (src, n) in s1.ptes then PageForked(s1, s2, dst, src, n, true) else s2 == s1
    ensures ForkedTo(s, s2, dst, src, n + 1)
  {
    ForkKeysStep(s.ptes.Keys, s1.ptes.Keys, s2.ptes.Keys, dst, src, n);
    ForkEntriesStep(s.ptes, s1.ptes, s2.ptes, dst, src, n);
    ForkViewStep(PrivateView(s), PrivateView(s1), PrivateView(s2), dst, src, n);
  }

  // ---- the machine that copies eagerly ----

  /** It has no frames: every private page is a value of its own. `stores` are the pages, private or shared,
      that may be written to. */
  datatype Eager = Eager(view: map<Key, Page>, areas: map<Key, Area>, stores: set<Key>)

  datatype Op =
    | DoSetArea(sp: nat, pg: nat, area: Area)
    | DoFaultIn(sp: nat, pg: nat, write: bool, answer: Answer)
    | DoStore(sp: nat, pg: nat, page: Page, frame: bool)
    | DoCowFault(sp: nat, pg: nat, frame: bool)
    | DoFork(dst: nat, src: nat, answers: nat -> Answer)
    | DoFreeSpace(sp: nat)

  ghost predicate EagerFaultIn(k: Key, write: bool, ok: bool, a: Eager, b: Eager) {
    if ok then
      && k !in a.stores && b.areas == a.areas
      && b.view == (if IsShared(a.areas, k) then a.view else a.view[k := ZERO_PAGE])
      && b.stores == if write then a.stores + {k} else a.stores
    else b == a
  }

  /** The pages below `n` are forked. */
  ghost predicate EagerForkTo(dst: nat, src: nat, a: Eager, b: Eager, n: nat) {
    && dst != src && b.areas == CopyAreas(a.areas, dst, src)
    && Forked(a.view, b.view, dst, src, n) && KeysForked(a.stores, b.stores, dst, src, n)
  }

  ghost predicate EagerFork(dst: nat, src: nat, ok: bool, a: Eager, b: Eager) {
    if ok then EagerForkTo(dst, src, a, b, USER_PAGES)
    else b == a || exists n: nat :: n < USER_PAGES && EagerForkTo(dst, src, a, b, n)
  }

  predicate InUserPart(k: Key, sp: nat) {
    k.0 == sp && k.1 < USER_PAGES
  }

  ghost predicate Without(v: map<Key, Page>, v': map<Key, Page>, sp: nat) {
    && (forall k: Key :: k in v' <==> k in v && !(k.0 == sp && k.1 < USER_PAGES))
    && (forall k: Key :: k in v' ==> v'[k] == v[k])
  }

  /** One operation of the eager machine. A store changes one page of one space; a COW fault changes nothing;
      a fork copies all private pages (or, when memory runs out, those below some page). */
  ghost predicate EagerStep(op: Op, ok: bool, a: Eager, b: Eager) {
    match op
    case DoSetArea(sp, pg, area) => b == if ok then a.(areas := a.areas[(sp, pg) := area]) else a
    case DoFaultIn(sp, pg, write, _) => EagerFaultIn((sp, pg), write, ok, a, b)
    case DoStore(sp, pg, page, _) =>
      && (ok ==> (sp, pg) in a.stores)
      && b == if ok && (sp, pg) in a.view then a.(view := a.view[(sp, pg) := page]) else a
    case DoCowFault(sp, pg, _) => b == a && (ok ==> (sp, pg) in a.stores)
    case DoFork(dst, src, _) => EagerFork(dst, src, ok, a, b)
    case DoFreeSpace(sp) =>
      && b.areas == a.areas && Without(a.view, b.view, sp)
      && forall k: Key :: k in b.stores <==> k in a.stores && !InUserPart(k, sp)
  }

  /** The operation is one of space `sp`: it stores to it, maps into it, forks into it or frees it. */
  predicate Touches(op: Op, sp: nat) {
    match op
    case DoFork(dst, _, _) => dst == sp
    case _ => op.sp == sp
  }

  predicate TouchedBy(ops: seq<Op>, sp: nat) {
    exists i :: 0 <= i < |ops| && Touches(ops[i], sp)
  }

  predicate Frees(op: Op, sp: nat) {
    op.DoFreeSpace? && op.sp == sp
  }

  predicate FreedBy(ops: seq<Op>, sp: nat) {
    exists i :: 0 <= i < |ops| && Frees(ops[i], sp)
  }

  ghost predicate EagerRun(ops: seq<Op>, oks: seq<bool>, states: seq<Eager>) {
    && |oks| == |ops| && |states| == |ops| + 1
    && forall i :: 0 <= i < |ops| ==> EagerStep(ops[i], oks[i], states[i], states[i + 1])
  }

  /** Isolation over whole runs: what a space sees in its private pages is not changed by any number of
      operations of other spaces, its forked children and its parent included. */
  lemma {:induction false} Isolation(ops: seq<Op>, oks: seq<bool>, states: seq<Eager>, k: Key)
    requires EagerRun(ops, oks, states) && k in states[0].view
    requires !TouchedBy(ops, k.0)
    ensures k in states[|ops|].view && states[|ops|].view[k] == states[0].view[k]
    ensures AreaAt(states[|ops|].areas, k) == AreaAt(states[0].areas, k)
  {
    if ops != [] {
      var n := |ops| - 1;
      assert forall i :: 0 <= i < n ==> ops[..n][i] == ops[i];
      Isolation(ops[..n], oks[..n], states[..n + 1], k);
      assert EagerStep(ops[n], oks[n], states[n], states[n + 1]);
      assert !Touches(ops[n], k.0);
    }
  }

  /** A page that may be written to may be written to until its own space is freed, however often it is
      forked, stored to and faulted on. */
  lemma {:induction false} StaysWritable(ops: seq<Op>, oks: seq<bool>, states: seq<Eager>, k: Key)
    requires EagerRun(ops, oks, states) && k in states[0].stores
    requires !FreedBy(ops, k.0)
    ensures k in states[|ops|].stores
  {
    if ops != [] {
      var n := |ops| - 1;
      assert forall i :: 0 <= i < n ==> ops[..n][i] == ops[i];
      StaysWritable(ops[..n], oks[..n], states[..n + 1], k);
      assert EagerStep(ops[n], oks[n], states[n], states[n + 1]);
      assert !Frees(ops[n], k.0);
    }
  }

  /** Pages 0 .. n - 1 of `sp` are gone. */
  ghost predicate Dropped(s: Image, s': Image, sp: nat, n: nat) {
    && (forall k: Key :: k in s'.ptes <==> k in s.ptes && !(k.0 == sp && k.1 < n))
    && (forall k: Key :: k in s'.ptes ==> s'.ptes[k] == s.ptes[k])
    && (forall k: Key :: k in PrivateView(s') <==> k in PrivateView(s) && !(k.0 == sp && k.1 < n))
    && (forall k: Key :: k in PrivateView(s') ==> PrivateView(s')[k] == PrivateView(s)[k])
  }

  lemma DropStep(s: Image, s1: Image, s2: Image, sp: nat, n: nat)
    requires Inv(s1) && Dropped(s, s1, sp, n)
    requires if (sp, n) in s1.ptes then s2 == Detached(s1, (sp, n)) else s2 == s1
    ensures Inv(s2) && Dropped(s, s2, sp, n + 1)
  {
    if (sp, n) in s1.ptes {
      DetachKeeps(s1, (sp, n));
      DetachView(s1, (sp, n));
    }
  }

  lemma NewEntry(ptes: map<Key, Pte>, k: Key, l: Key, e: Pte, d: Pte)
    requires k in ptes && l !in ptes && MayStore(e) == MayStore(ptes[k]) == MayStore(d)
    ensures PageEntries(ptes, ptes[l := d][k := e], k, l, true)
    ensures e == ptes[k] ==> ptes[l := d][k := e] == ptes[l := d]
  {}

  lemma CopyPageDone(s: Image, dst: nat, src: nat, va: nat, f: nat, s': Image)
    requires Inv(s) && (src, va) in s.ptes && (dst, va) !in s.ptes
    requires IsShared(s.areas, (dst, va)) == IsShared(s.areas, (src, va))
    requires f in s.free && s'.areas == s.areas && s'.refs == SetRef(s.refs, f) && s'.free == s.free - {f}
    requires var e := s.ptes[(src, va)];
             s'.ptes == s.ptes[(dst, va) := Pte(f, e.write, e.cow)] && s'.mem == s.mem[f := s.mem[e.frame]]
    ensures Inv(s') && PageForked(s, s', dst, src, va, true)
  {
    var k, l := (src, va), (dst, va);
    var e, page := Pte(f, s.ptes[k].write, s.ptes[k].cow), s.mem[s.ptes[k].frame];
    assert SoleWriter(s, k);
    AttachKeeps(s, l, e, page);
    AttachView(s, l, e, page);
    assert s' == Attached(s, l, e, page);
    NewEntry(s.ptes, k, l, s.ptes[k], e);
  }

  lemma ShareForked(s: Image, k: Key, l: Key, s': Image, v: map<Key, Page>)
    requires Inv(s) && k in s.ptes && l !in s.ptes && IsShared(s.areas, l) == IsShared(s.areas, k)
    requires s.ptes[k].frame < |s.refs| && s' == Shared(s, k, l) && v == PrivateView(s)
    ensures PageEntries(s.ptes, s'.ptes, k, l, true) && s'.areas == s.areas && PageSeen(v, PrivateView(s'), k, l, true)
  {
    var e := CowEntry(s.ptes[k], IsShared(s.areas, k));
    NewEntry(s.ptes, k, l, e, e);
    ShareView(s, k, l);
  }

  lemma SharePageDone(s: Image, dst: nat, src: nat, va: nat, s': Image)
    requires Inv(s) && (src, va) in s.ptes && (dst, va) !in s.ptes
    requires IsShared(s.areas, (dst, va)) == IsShared(s.areas, (src, va))
    requires s.ptes[(src, va)].frame < |s.refs| && s' == Shared(s, (src, va), (dst, va))
    ensures Inv(s') && PageForked(s, s', dst, src, va, true)
  {
    var k, l := (src, va), (dst, va);
    ShareKeeps(s, k, l);
    ShareForked(s, k, l, s', PrivateView(s));
  }

  /** Giving an unused frame back; its contents may have changed. */
  lemma AllocUndone(s: Image, f: nat, s': Image)
    requires Inv(s) && f in s.free && s'.ptes == s.ptes && s'.areas == s.areas
    requires s'.refs == DropRef(SetRef(s.refs, f), f) && s'.free == s.free - {f} + {f} && s'.mem - {f} == s.mem - {f}
    ensures Inv(s') && PrivateView(s') == PrivateView(s)
  {
    FreeUnmapped(s, f);
    assert forall g :: g in s.mem && g != f ==> g in s.mem - {f} && g in s'.mem - {f} && s'.mem[g] == (s'.mem - {f})[g];
    forall k | k in s.ptes ensures EntryOk(s', k) && SoleWriter(s', k) { assert EntryOk(s, k) && SoleWriter(s, k); }
    forall k, l | k in s.ptes && l in s.ptes ensures Agree(s', k, l) { assert Agree(s, k, l); }
  }

  /** The order of the updates in the fault handler does not matter. */
  lemma CopiedIs(s: Image, k: Key, g: nat, s': Image)
    requires Inv(s) && k in s.ptes && g in s.free && s'.areas == s.areas
    requires s'.ptes == s.ptes[k := Pte(g, true, false)] && s'.mem == s.mem[g := s.mem[s.ptes[k].frame]]
    requires s'.refs == DropRef(SetRef(s.refs, g), s.ptes[k].frame)
    requires s'.free == if LastRef(SetRef(s.refs, g), s.ptes[k].frame) then s.free - {g} + {s.ptes[k].frame}
                        else s.free - {g}
    ensures s' == Copied(s, k, g)
  {}

  lemma CopyDone(s: Image, k: Key, g: nat, s': Image)
    requires Inv(s) && k in s.ptes && s.ptes[k].cow && g in s.free && s'.areas == s.areas
    requires s'.ptes == s.ptes[k := Pte(g, true, false)] && s'.mem == s.mem[g := s.mem[s.ptes[k].frame]]
    requires s'.refs == DropRef(SetRef(s.refs, g), s.ptes[k].frame)
    requires s'.free == if LastRef(SetRef(s.refs, g), s.ptes[k].frame) then s.free - {g} + {s.ptes[k].frame}
                        else s.free - {g}
    ensures Inv(s') && PrivateView(s') == PrivateView(s) && Stores(s') == Stores(s)
  {
    CopiedIs(s, k, g, s');
    CopyKeeps(s, k, g);
    StoresReflag(s, s', k);
  }

  /** A fork must copy the page at once: it is not tracked or not owned, or its frame cannot take another
      reference. */
  predicate NeedsCopy(s: Image, k: Key)
    requires k in s.ptes
  {
    var f := s.ptes[k].frame;
    !(AreaAt(s.areas, k).Tracked? && AreaAt(s.areas, k).owned && f < |s.refs| && 0 < s.refs[f] < REF_LIMIT)
  }

  /** Forking the page fails: there is no room for a page table, or no frame for a copy that must be made. */
  predicate Refuses(s: Image, k: Key, answer: Answer)
    requires k in s.ptes
  {
    !answer.table || (NeedsCopy(s, k) && (!answer.frame || s.free == {}))
  }

  class Machine {
    var ptes: map<Key, Pte>
    var areas: map<Key, Area>
    var refs: seq<nat>
    var free: set<nat>
    var mem: map<nat, Page>

    ghost function Now(): Image
      reads this
    {
      Image(ptes, areas, refs, free, mem)
    }

    ghost predicate Valid()
      reads this
    {
      Inv(Now())
    }

    ghost function View(): map<Key, Page>
      reads this
    {
      PrivateView(Now())
    }

    constructor (frames: set<nat>, tracked: nat)
      ensures Valid() && View() == map[]
    {
      ptes, areas, free, mem := map[], map[], frames, map[];
      refs := seq(tracked, _ => 0);
    }

    /** `pmm_alloc`: any free frame; none if there is none or the allocator does not find one. */
    method Alloc(found: bool) returns (r: Option)
      modifies this`refs, this`free
      ensures r.Some? <==> found && old(free) != {}
      ensures r.None? ==> refs == old(refs) && free == old(free)
      ensures r.Some? ==> r.frame in old(free) && free == old(free) - {r.frame} && refs == SetRef(old(refs), r.frame)
    {
      if free == {} || !found { return None; }
      var f :| f in free;
      free := free - {f};
      if f < |refs| { refs := refs[f := 1]; }
      r := Some(f);
    }

    /** `pmm_retain`. */
    method Retain(f: nat) returns (ok: bool)
      modifies this`refs
      ensures ok <==> f < |old(refs)| && 0 < old(refs)[f] < REF_LIMIT
      ensures refs == if ok then old(refs)[f := old(refs)[f] + 1] else old(refs)
    {
      if f >= |refs| { return false; }
      if refs[f] == 0 || refs[f] >= REF_LIMIT { return false; }
      refs := refs[f := refs[f] + 1];
      ok := true;
    }

    /** `pmm_free`. */
    method Free(f: nat)
      modifies this`refs, this`free
      ensures refs == DropRef(old(refs), f)
      ensures free == if LastRef(old(refs), f) then old(free) + {f} else old(free)
    {
      if f < |refs| {
        if refs[f] == 0 { return; }
        refs := refs[f := refs[f] - 1];
        if refs[f] > 0 { return; }
      }
      free := free + {f};
    }

    /** The page becomes writable where it is. */
    method MakeWritable(k: Key)
      requires Valid() && k in ptes && ptes[k].cow && SoleRef(refs, ptes[k].frame)
      modifies this`ptes
      ensures Valid() && View() == old(View())
      ensures k in ptes && ptes == old(ptes)[k := ptes[k]] && ptes[k].write && !ptes[k].cow
      ensures Stores(Now()) == old(Stores(Now()))
    {
      ghost var was := Now();
      WritableKeeps(was, k);
      ptes := ptes[k := Pte(ptes[k].frame, true, false)];
      assert Now() == Writable(was, k);
      StoresReflag(was, Now(), k);
    }

    /** The page moves to a frame of its own. */
    method CopyToOwn(k: Key, frame: bool) returns (ok: bool)
      requires Valid() && k in ptes && ptes[k].cow
      modifies this`ptes, this`refs, this`free, this`mem
      ensures Valid() && View() == old(View()) && (!ok ==> Now() == old(Now()))
      ensures ok <==> frame && old(free) != {}
      ensures ok ==> k in ptes && ptes == old(ptes)[k := ptes[k]] && ptes[k].write && !ptes[k].cow
      ensures Stores(Now()) == old(Stores(Now()))
    {
      ghost var was := Now();
      var f := ptes[k].frame;
      var a := Alloc(frame);
      if a.None? { return false; }
      mem := mem[a.frame := mem[f]];
      ptes := ptes[k := Pte(a.frame, true, false)];
      Free(f);
      CopyDone(was, k, a.frame, Now());
      ok := true;
    }

    /** A COW fault on the page succeeds: its count is one, or there is a frame for a copy. */
    predicate Resolves(k: Key, frame: bool)
      reads this
    {
      k in ptes && ptes[k].cow && (SoleRef(refs, ptes[k].frame) || (frame && free != {}))
    }

    /** `vmm_handle_cow_fault`. */
    method CowFault(sp: nat, pg: nat, frame: bool) returns (r: int)
      requires Valid()
      modifies this`ptes, this`refs, this`free, this`mem
      ensures Valid() && View() == old(View())
      ensures r == 0 <==> (sp, pg) !in old(ptes) || !old(ptes)[(sp, pg)].cow
      ensures r == 1 <==> old(Resolves((sp, pg), frame))
      ensures r == 1 ==> (sp, pg) in ptes && ptes[(sp, pg)].write && !ptes[(sp, pg)].cow
      ensures r == 0 || r == -1 ==> Now() == old(Now())
      ensures Stores(Now()) == old(Stores(Now()))
      ensures -1 <= r <= 1 && ptes.Keys == old(ptes.Keys)
      ensures forall k :: k in ptes && k != (sp, pg) ==> ptes[k] == old(ptes)[k]
    {
      var k := (sp, pg);
      if k !in ptes || !ptes[k].cow { return 0; }
      var f := ptes[k].frame;
      var done := true;
      if f < |refs| && refs[f] == 1 { MakeWritable(k); } else { done := CopyToOwn(k, frame); }
      r := if done then 1 else -1;
    }

    /** A user store to a page, through the COW fault when the entry asks for it. */
    method Store(sp: nat, pg: nat, page: Page, frame: bool) returns (ok: bool)
      requires Valid()
      modifies this`ptes, this`refs, this`free, this`mem
      ensures Valid()
      ensures View() == if ok && (sp, pg) in old(View()) then old(View())[(sp, pg) := page] else old(View())
      ensures ok ==> (sp, pg) in ptes && ptes[(sp, pg)].frame in mem && mem[ptes[(sp, pg)].frame] == page
      ensures ok <==> old((sp, pg) in ptes && (ptes[(sp, pg)].write || Resolves((sp, pg), frame)))
      ensures Stores(Now()) == old(Stores(Now()))
    {
      var k := (sp, pg);
      if k !in ptes { return false; }
      if !ptes[k].write {
        var r := CowFault(sp, pg, frame);
        if r <= 0 { return false; }
      }
      ghost var was := Now();
      StoreKeeps(was, k, page);
      mem := mem[ptes[k].frame := page];
      assert Now() == Stored(was, k, page);
      ok := true;
    }

    /** Faulting in a page that is not present: a zeroed frame with the flags of its area. */
    method FaultIn(sp: nat, pg: nat, write: bool, answer: Answer) returns (ok: bool)
      requires Valid()
      modifies this`ptes, this`refs, this`free, this`mem
      ensures Valid()
      ensures ok <==> (sp, pg) !in old(ptes) && answer == Answer(true, true) && old(free) != {}
      ensures ok ==> (sp, pg) in ptes && ptes == old(ptes)[(sp, pg) := ptes[(sp, pg)]]
      ensures ok ==> ptes[(sp, pg)].write == write && !ptes[(sp, pg)].cow
      ensures Stores(Now()) == if ok && write then old(Stores(Now())) + {(sp, pg)} else old(Stores(Now()))
      ensures View() == if ok && !IsShared(areas, (sp, pg)) then old(View())[(sp, pg) := ZERO_PAGE] else old(View())
    {
      ghost var was := Now();
      var k := (sp, pg);
      if k in ptes { return false; }
      var a := Alloc(answer.frame);
      if a.None? { return false; }
      if !answer.table { // no room for a page table
        Free(a.frame);
        AllocUndone(was, a.frame, Now());
        return false;
      }
      AttachKeeps(was, k, Pte(a.frame, write, false), ZERO_PAGE);
      AttachView(was, k, Pte(a.frame, write, false), ZERO_PAGE);
      mem := mem[a.frame := ZERO_PAGE];
      ptes := ptes[k := Pte(a.frame, write, false)];
      assert Now() == Attached(was, k, Pte(a.frame, write, false), ZERO_PAGE);
      StoresAttach(was, Now(), k, Pte(a.frame, write, false));
      ok := true;
    }

    /** The part of a mapping call that matters here: what kind of area a page not yet present is in. */
    method SetArea(sp: nat, pg: nat, area: Area)
      requires Valid() && (sp, pg) !in ptes
      modifies this`areas
      ensures Valid() && View() == old(View()) && areas == old(areas)[(sp, pg) := area]
    {
      AreasKeep(Now(), areas[(sp, pg) := area]);
      areas := areas[(sp, pg) := area];
    }

    /** Eager copy of one page. */
    method CopyPage(dst: nat, src: nat, va: nat, answer: Answer) returns (ok: bool)
      requires Valid() && (src, va) in ptes && (dst, va) !in ptes
      requires IsShared(areas, (dst, va)) == IsShared(areas, (src, va))
      modifies this`ptes, this`refs, this`free, this`mem
      ensures Valid() && PageForked(old(Now()), Now(), dst, src, va, ok)
      ensures ok <==> answer == Answer(true, true) && old(free) != {}
      ensures !ok && answer.table ==> Now() == old(Now())
    {
      ghost var was := Now();
      var k, l := (src, va), (dst, va);
      var f := ptes[k].frame;
      var a := Alloc(answer.frame);
      if a.None? { return false; }
      mem := mem[a.frame := mem[f]];
      if !answer.table { // no room for a page table
        Free(a.frame);
        AllocUndone(was, a.frame, Now());
        return false;
      }
      var e := Pte(a.frame, ptes[k].write, ptes[k].cow);
      ptes := ptes[l := e];
      CopyPageDone(was, dst, src, va, a.frame, Now());
      ok := true;
    }

    /** Copy-on-write fork of one page. */
    method SharePage(dst: nat, src: nat, va: nat, answer: Answer) returns (ok: bool)
      requires Valid() && (src, va) in ptes && (dst, va) !in ptes
      requires IsShared(areas, (dst, va)) == IsShared(areas, (src, va))
      modifies this`ptes, this`refs, this`free, this`mem
      ensures Valid() && PageForked(old(Now()), Now(), dst, src, va, ok)
      ensures ok <==> !Refuses(old(Now()), (src, va), answer)
      ensures !ok ==> Refuses(Now(), (src, va), answer)
    {
      ghost var was := Now();
      var k, l := (src, va), (dst, va);
      var f := ptes[k].frame;
      var area := AreaAt(areas, k);
      var eager := area.Untracked? || !area.owned;
      if !eager {
        var retained := Retain(f);
        eager := !retained;
      }
      if eager {
        ok := CopyPage(dst, src, va, answer);
        return;
      }
      if !answer.table { // no room for a page table
        Free(f);
        assert refs == was.refs;
        return false;
      }
      var e := CowEntry(ptes[k], area.shared);
      ptes := ptes[l := e];
      if ptes[k].write && !area.shared { ptes := ptes[k := e]; }
      assert Now().ptes == Shared(was, k, l).ptes;
      SharePageDone(was, dst, src, va, Now());
      ok := true;
    }

    /** `vmm_fork_user_cow`. */
    method ForkCow(dst: nat, src: nat, answers: nat -> Answer) returns (ok: bool)
      requires Valid() && dst != src && forall p: nat :: (dst, p) !in ptes
      modifies this
      ensures Valid() && areas == CopyAreas(old(areas), dst, src)
      ensures ok ==> ForkedTo(old(Now()), Now(), dst, src, USER_PAGES)
      ensures !ok ==> exists n: nat :: n < USER_PAGES && ForkedTo(old(Now()), Now(), dst, src, n)
                                       && (src, n) in ptes && Refuses(Now(), (src, n), answers(n))
    {
      ghost var was := Now();
      areas := CopyAreas(areas, dst, src);
      ForkStart(was, Now(), dst, src);
      for va := 0 to USER_PAGES
        invariant Valid() && areas == CopyAreas(was.areas, dst, src)
        invariant ForkedTo(was, Now(), dst, src, va)
      {
        ghost var before := Now();
        if (src, va) in ptes {
          ForkReady(was, before, dst, src, va);
          ok := SharePage(dst, src, va, answers(va));
          if !ok { ForkStopped(was, before, Now(), dst, src, va); return; }
        }
        ForkPageStep(was, before, Now(), dst, src, va);
      }
      ok := true;
    }

    /** `vmm_fork_user`: the same specification by copying every page. */
    method ForkEager(dst: nat, src: nat, answers: nat -> Answer) returns (ok: bool)
      requires Valid() && dst != src && forall p: nat :: (dst, p) !in ptes
      modifies this
      ensures Valid() && areas == CopyAreas(old(areas), dst, src)
      ensures ok ==> ForkedTo(old(Now()), Now(), dst, src, USER_PAGES)
      ensures !ok ==> exists n: nat :: n < USER_PAGES && ForkedTo(old(Now()), Now(), dst, src, n)
                                       && (src, n) in ptes && (answers(n) != Answer(true, true) || free == {})
    {
      ghost var was := Now();
      areas := CopyAreas(areas, dst, src);
      ForkStart(was, Now(), dst, src);
      for va := 0 to USER_PAGES
        invariant Valid() && areas == CopyAreas(was.areas, dst, src)
        invariant ForkedTo(was, Now(), dst, src, va)
      {
        ghost var before := Now();
        if (src, va) in ptes {
          ForkReady(was, before, dst, src, va);
          ok := CopyPage(dst, src, va, answers(va));
          if !ok { ForkStopped(was, before, Now(), dst, src, va); return; }
        }
        ForkPageStep(was, before, Now(), dst, src, va);
      }
      ok := true;
    }

    method DropEntry(k: Key)
      requires k in ptes
      modifies this`ptes, this`refs, this`free
      ensures Now() == Detached(old(Now()), k)
    {
      Free(ptes[k].frame);
      ptes := ptes - {k};
    }

    /** `vmm_space_free`, by the last user of the space. */
    method FreeSpace(sp: nat)
      requires Valid()
      modifies this`ptes, this`refs, this`free
      ensures Valid() && Dropped(old(Now()), Now(), sp, USER_PAGES)
      ensures forall k: Key :: k in Stores(Now()) <==> k in old(Stores(Now())) && !InUserPart(k, sp)
    {
      ghost var was := Now();
      for va := 0 to USER_PAGES
        invariant Valid() && Dropped(was, Now(), sp, va)
      {
        ghost var before := Now();
        if (sp, va) in ptes { DropEntry((sp, va)); }
        DropStep(was, before, Now(), sp, va);
      }
    }

    ghost function Abstract(): Eager
      reads this
    {
      Eager(View(), areas, Stores(Now()))
    }

    method DoForkCow(dst: nat, src: nat, answers: nat -> Answer) returns (ok: bool)
      requires Valid() && dst != src && forall p: nat :: (dst, p) !in ptes
      modifies this
      ensures Valid() && EagerFork(dst, src, ok, old(Abstract()), Abstract())
    {
      ghost var was := Now();
      ok := ForkCow(dst, src, answers);
      if ok {
        ForkStores(was, Now(), dst, src, USER_PAGES);
      } else {
        ghost var n: nat :| n < USER_PAGES && ForkedTo(was, Now(), dst, src, n);
        ForkStores(was, Now(), dst, src, n);
        assert EagerForkTo(dst, src, old(Abstract()), Abstract(), n);
      }
    }

    /** Any operation at all, as the eager machine would do it. */
    method Do(op: Op) returns (ok: bool)
      requires Valid()
      modifies this
      ensures Valid() && EagerStep(op, ok, old(Abstract()), Abstract())
      ensures op.DoStore? && (op.sp, op.pg) in old(Stores(Now())) && op.frame && old(free) != {} ==> ok
    {
      match op {
        case DoSetArea(sp, pg, area) =>
          ok := (sp, pg) !in ptes;
          if ok { SetArea(sp, pg, area); }
        case DoFaultIn(sp, pg, write, answer) => ok := FaultIn(sp, pg, write, answer);
        case DoStore(sp, pg, page, frame) => ok := Store(sp, pg, page, frame);
        case DoCowFault(sp, pg, frame) => var r := CowFault(sp, pg, frame); ok := r == 1;
        case DoFork(dst, src, answers) =>
          ok := dst != src && forall k :: k in ptes ==> k.0 != dst;
          if ok { ok := DoForkCow(dst, src, answers); }
        case DoFreeSpace(sp) => FreeSpace(sp); ok := true;
      }
    }

    /** Every run of copy-on-write operations is a run of the eager machine. */
    method Run(ops: seq<Op>) returns (oks: seq<bool>, ghost states: seq<Eager>)
      requires Valid()
      modifies this
      ensures Valid() && EagerRun(ops, oks, states)
      ensures states[0] == old(Abstract()) && states[|ops|] == Abstract()
      ensures forall k :: k in old(View()) && !TouchedBy(ops, k.0) ==> k in View() && View()[k] == old(View())[k]
      ensures forall k :: k in old(Stores(Now())) && !FreedBy(ops, k.0) ==> k in Stores(Now())
    {
      oks, states := [], [Abstract()];
      for i := 0 to |ops|
        invariant Valid() && |oks| == i && |states| == i + 1
        invariant states[0] == old(Abstract()) && states[i] == Abstract()
        invariant forall j :: 0 <= j < i ==> EagerStep(ops[j], oks[j], states[j], states[j + 1])
      {
        var ok := Do(ops[i]);
        oks, states := oks + [ok], states + [Abstract()];
      }
      forall k | k in old(View()) && !TouchedBy(ops, k.0) ensures k in View() && View()[k] == old(View())[k] {
        Isolation(ops, oks, states, k);
      }
      forall k | k in old(Stores(Now())) && !FreedBy(ops, k.0) ensures k in Stores(Now()) {
        StaysWritable(ops, oks, states, k);
      }
    }
  }
}
