/** Reference-counted bitmaps of identifiers. */
module IdBitmap {
  const PER_WORD := 64         // ID_BITMAP_IDS_PER_ENT
  const GROWTH := 1024         // ID_BITMAP_DEFAULT_MAP_SIZE
  const INITIAL := 1           // REFCNT_INITIAL_VAL

  /** A 64-bit word, as the set of its bit positions. */
  type Word = set<nat>

  datatype Kind = System | User

  /** `Overrun` stands for an access beyond the words of the map. */
  datatype Outcome = Done | Got(id: nat) | NoEntry | NoMemory | Invalid | Busy | Overrun

  /** The number of words that hold n bits. */
  function WordsFor(n: nat): nat { (n + PER_WORD - 1) / PER_WORD }

  predicate BitOf(w: seq<Word>, id: nat) {
    id / PER_WORD < |w| && id % PER_WORD in w[id / PER_WORD]
  }

  /** The identifiers in use; identifier 0 is never one. */
  ghost function IdsOf(w: seq<Word>): set<nat> {
    set id: nat | 0 < id < PER_WORD * |w| && BitOf(w, id)
  }

  /** Only positions of a 64-bit word occur. */
  ghost predicate WordsOk(w: seq<Word>) {
    forall i, b :: 0 <= i < |w| && b in w[i] ==> b < PER_WORD
  }

  lemma InWord(w: seq<Word>, id: nat)
    ensures id / PER_WORD < |w| <==> id < PER_WORD * |w|
    ensures id != 0 ==> (BitOf(w, id) <==> id in IdsOf(w))
  {
  }

  /** Setting or clearing one bit adds or removes one identifier. */
  lemma BitSet(w: seq<Word>, id: nat)
    requires id / PER_WORD < |w| && WordsOk(w)
    ensures var i, b := id / PER_WORD, id % PER_WORD;
      && WordsOk(w[i := w[i] + {b}]) && WordsOk(w[i := w[i] - {b}])
      && (id != 0 ==> IdsOf(w[i := w[i] + {b}]) == IdsOf(w) + {id})
      && IdsOf(w[i := w[i] - {b}]) == IdsOf(w) - {id}
  {
    var i, b := id / PER_WORD, id % PER_WORD;
    assert id == PER_WORD * i + b;
    forall k: nat
      ensures BitOf(w[i := w[i] + {b}], k) <==> BitOf(w, k) || k == id
      ensures BitOf(w[i := w[i] - {b}], k) <==> BitOf(w, k) && k != id
    {
      assert k == PER_WORD * (k / PER_WORD) + k % PER_WORD;
    }
    InWord(w, id);
  }

  /** No identifier is in use exactly when every word is zero but for bit 0. */
  lemma AllZero(w: seq<Word>)
    requires WordsOk(w)
    ensures IdsOf(w) == {} <==> forall i, b :: 0 <= i < |w| && b in w[i] ==> i == 0 && b == 0
  {
    forall i, b | 0 <= i < |w| && b in w[i] && (i != 0 || b != 0)
      ensures PER_WORD * i + b in IdsOf(w)
    {
      var id := PER_WORD * i + b;
      assert id / PER_WORD == i && id % PER_WORD == b;
      assert BitOf(w, id);
    }
  }

  /** Copying the words into a longer map, or into a shorter one when the rest is zero, keeps the identifiers. */
  lemma Copied(w: seq<Word>, w': seq<Word>)
    requires WordsOk(w) && w' != []
    requires forall i :: 0 <= i < |w'| ==>
      w'[i] - (if i == 0 then {0} else {}) == (if i < |w| then w[i] else {}) - (if i == 0 then {0} else {})
    requires forall i :: |w'| <= i < |w| ==> w[i] == {}
    ensures WordsOk(w') && IdsOf(w') == IdsOf(w)
  {
    forall i, b | 0 <= i < |w'| && b in w'[i]
      ensures b < PER_WORD
    {
      if b != 0 { assert b in w'[i] - (if i == 0 then {0} else {}); }
    }
    forall id: nat | id != 0
      ensures BitOf(w', id) <==> BitOf(w, id)
    {
      var i, b := id / PER_WORD, id % PER_WORD;
      assert id == PER_WORD * i + b;
      if i < |w'| {
        var z: set<nat> := if i == 0 then {0} else {};
        assert b !in z;
        assert b in w'[i] <==> b in w'[i] - z;
      }
    }
    assert forall id: nat :: id in IdsOf(w') <==> id in IdsOf(w);
  }

  ghost predicate NoneFree(low: nat, high: nat, nrIds: nat, ids: set<nat>) {
    high > nrIds || forall k :: low <= k < high ==> k == 0 || k in ids
  }

  /** What resize_bitmap returns, from the size asked for and the identifiers in use. */
  ghost function ResizeOutcome(newIds: nat, reservedIds: nat, mem: nat, ids: set<nat>): Outcome {
    if newIds <= reservedIds || newIds == 0 then Invalid
    else if WordsFor(newIds) > mem then NoMemory
    else if exists id :: id in ids && id >= PER_WORD * WordsFor(newIds) then Busy else Done
  }

  class IdMap {
    const reservedIds: nat
    var nrIds: nat
    var maxIdx: nat
    var map_: seq<Word>
    var counter: int
    var deleted: bool
    var freed: bool

    ghost predicate Shape()
      reads this
    {
      !freed && maxIdx == |map_| == WordsFor(nrIds) && WordsOk(map_) && (map_ != [] ==> 0 in map_[0])
    }

    ghost function Ids(): set<nat>
      reads this
    {
      IdsOf(map_)
    }

    /** One reference per identifier in use, and one more until the map is destroyed. */
    ghost predicate Counted()
      reads this
    {
      counter == |Ids()| + (if deleted then 0 else INITIAL) && (deleted ==> Ids() != {})
    }

    ghost predicate Valid()
      reads this
    {
      if freed then deleted && counter == 0 && map_ == [] else Shape() && Counted()
    }

    /** init_idbmap_common */
    constructor (reservedIds: nat)
      ensures Valid() && !freed && !deleted && Ids() == {} && nrIds == 0 && this.reservedIds == reservedIds
    {
      this.reservedIds := reservedIds;
      nrIds, maxIdx, map_, counter, deleted, freed := 0, 0, [], INITIAL, false, false;
    }

    /** The identifiers find_free_id looks at. */
    function Low(kind: Kind): nat { if kind.System? then 1 else reservedIds }
    function High(kind: Kind): nat
      reads this
    {
      if kind.System? then reservedIds else nrIds
    }

    /** resize_bitmap, where `mem` is the largest number of words that can be allocated.  With as many
        words as before nothing is copied, and every identifier is forgotten. */
    method ResizeBitmap(newIds: nat, mem: nat) returns (r: Outcome)
      requires Shape()
      modifies this`nrIds, this`maxIdx, this`map_
      ensures Shape()
      ensures r == ResizeOutcome(newIds, reservedIds, mem, old(Ids()))
      ensures !r.Done? ==> nrIds == old(nrIds) && map_ == old(map_)
      ensures r.Done? ==> nrIds == newIds && map_ != []
      ensures r.Done? ==> Ids() == if WordsFor(newIds) == old(maxIdx) then {} else old(Ids())
    {
      if newIds == 0 || newIds <= reservedIds { return Invalid; }
      var newIdx := WordsFor(newIds);
      if newIdx > mem { return NoMemory; }
      var newMap: seq<Word> := seq(newIdx, _ => {});
      if maxIdx < newIdx {
        newMap := map_ + newMap[maxIdx..];
      } else if maxIdx > newIdx {
        var i := newIdx;
        while i < maxIdx
          invariant newIdx <= i <= maxIdx
          invariant forall j :: newIdx <= j < i ==> map_[j] == {}
        {
          if map_[i] != {} {
            Beyond(map_, newIdx, i);
            ghost var id :| id in IdsOf(map_) && id >= PER_WORD * newIdx;
            assert id in old(Ids());
            return Busy;
          }
          i := i + 1;
        }
        newMap := map_[..newIdx];
      }
      ghost var w := if maxIdx == newIdx then newMap else map_;
      NothingBeyond(map_, newIdx);
      map_, maxIdx, nrIds := newMap[0 := newMap[0] + {0}], newIdx, newIds;
      Copied(w, map_);
      if w == newMap { AllZero(newMap); }
      r := Done;
    }

    /** find_free_id: take the lowest free identifier of the range */
    method FindFreeId(kind: Kind) returns (r: Outcome)
      requires Shape()
      modifies this`map_
      ensures Shape()
      ensures r.Got? || r.NoEntry?
      ensures r.Got? ==>
        && Low(kind) <= r.id < High(kind) <= nrIds && r.id != 0 && r.id !in old(Ids()) && Ids() == old(Ids()) + {r.id}
        && forall k :: Low(kind) <= k < r.id ==> k == 0 || k in old(Ids())
      ensures r.NoEntry? ==> map_ == old(map_)
      ensures r.NoEntry? <==> old(Exhausted(kind))
      ensures r.NoEntry? ==> Exhausted(kind)
    {
      var minId, maxId := Low(kind), High(kind);
      if maxId > nrIds { return NoEntry; }
      var id := minId;
      while id < maxId
        invariant minId <= id && map_ == old(map_)
        invariant forall k :: minId <= k < id ==> k == 0 || k in old(Ids())
        decreases maxId - id
      {
        var idx, pos := id / PER_WORD, id % PER_WORD;
        InWord(map_, id);
        if pos !in map_[idx] {
          BitSet(map_, id);
          map_ := map_[idx := map_[idx] + {pos}];
          return Got(id);
        }
        id := id + 1;
      }
      return NoEntry;
    }

    /** get_idbmap_ref, refcnt_get */
    method GetRef() returns (ok: bool)
      modifies this`counter
      ensures ok == !deleted && counter == if ok then old(counter) + 1 else old(counter)
    {
      if deleted { return false; }
      counter := counter + 1;
      return true;
    }

    /** put_idbmap_ref, refcnt_put: the last reference of a destroyed map releases it, and then every word is zero. */
    method PutRef()
      requires Shape() && counter > 0 && (counter == INITIAL && deleted ==> Ids() == {})
      modifies this
      ensures counter == old(counter) - 1 && deleted == old(deleted)
      ensures freed <==> counter == 0 && deleted
      ensures if freed then map_ == [] else map_ == old(map_) && nrIds == old(nrIds) && maxIdx == old(maxIdx)
    {
      var oldCnt := counter;
      counter := counter - 1;
      if oldCnt == INITIAL && deleted {
        var rc := FreeMap();
        assert rc.Done?;
        freed := true;
      }
    }

    /** free_map_in_idmap */
    method FreeMap() returns (r: Outcome)
      requires Shape()
      modifies this`map_, this`nrIds, this`maxIdx
      ensures r == if old(Ids()) == {} then Done else Busy
      ensures Shape() && if r.Done? then map_ == [] && nrIds == 0 else map_ == old(map_) && nrIds == old(nrIds)
    {
      ghost var w := map_;
      AllZero(map_);
      if map_ != [] { map_ := map_[0 := map_[0] - {0}]; }
      ghost var v := map_;
      var i := 0;
      while i < maxIdx
        invariant 0 <= i <= maxIdx && map_ == v
        invariant forall j :: 0 <= j < i ==> map_[j] == {}
      {
        if map_[i] != {} {
          map_ := map_[0 := map_[0] + {0}];
          assert map_[0] == w[0] && map_ == w;
          ghost var b :| b in v[i];
          assert b in w[i];
          return Busy;
        }
        i := i + 1;
      }
      assert forall j, b :: 0 <= j < |w| && b in w[j] && (j != 0 || b != 0) ==> b in v[j];
      nrIds, maxIdx, map_ := 0, 0, [];
      return Done;
    }

    /** No identifier of the kind is free in the map as it is. */
    ghost predicate Exhausted(kind: Kind)
      reads this
    {
      NoneFree(Low(kind), High(kind), nrIds, Ids())
    }

    /** Lines 391-401 of idbmap_get_id after a failed search: grow and search again. */
    method GrowAndFind(kind: Kind, mem: nat) returns (rc: Outcome, r: Outcome)
      requires Shape() && Exhausted(kind)
      modifies this`nrIds, this`maxIdx, this`map_
      ensures Shape() && (r.NoEntry? || r.Got?)
      ensures !rc.Done? ==> nrIds == old(nrIds) && maxIdx == old(maxIdx)
      ensures rc.Done? <==> old(CanGrow(mem))
      ensures !rc.Done? ==> r.NoEntry? && rc == if nrIds + GROWTH <= reservedIds then Invalid else NoMemory
      ensures rc.Done? ==> nrIds == old(nrIds) + GROWTH && old(maxIdx) < maxIdx <= mem
      ensures rc.Done? ==> (r.Got? <==> old(SomeFree(kind)))
      ensures r.Got? ==> r.id != 0 && Low(kind) <= r.id < High(kind)
      ensures r.Got? ==> r.id !in old(Ids()) && Ids() == old(Ids()) + {r.id}
      ensures r.Got? ==> forall k :: Low(kind) <= k < r.id ==> k == 0 || k in old(Ids())
      ensures r.NoEntry? ==> Ids() == old(Ids()) && Exhausted(kind)
    {
      IdsBelow(map_);
      NewWords(nrIds);
      hide WordsFor, IdsOf, WordsOk;
      r := NoEntry;
      rc := ResizeBitmap(nrIds + GROWTH, mem);
      if rc.Done? {
        Roomy();
        r := FindFreeId(kind);
      }
    }

    /** A growth step leaves a free identifier at the end of the user range. */
    lemma Roomy()
      requires nrIds > reservedIds && nrIds > 1 && nrIds - 1 !in Ids()
      ensures !Exhausted(User)
    {
    }

    /** One growth step is possible. */
    ghost predicate CanGrow(mem: nat)
      reads this
    {
      nrIds + GROWTH > reservedIds && WordsFor(nrIds + GROWTH) <= mem
    }

    /** Some identifier of the kind is free, in the map as it is or after it has grown. */
    ghost predicate SomeFree(kind: Kind)
      reads this
    {
      kind.User? || exists k :: 1 <= k < reservedIds && k !in Ids()
    }

    /** idbmap_get_id: at most one growth is needed; a system request for which every identifier is taken
        grows the map until memory runs out. */
    method GetId(kind: Kind, mem: nat) returns (r: Outcome, ghost growths: nat)
      requires Shape() && counter >= 0
      modifies this
      ensures Shape() && deleted == old(deleted) && (old(Valid()) ==> Valid())
      ensures counter == old(counter) + if r.Got? then 1 else 0
      ensures r.NoEntry? <==> deleted
      ensures r.Got? ==> r.id != 0 && Low(kind) <= r.id < High(kind)
      ensures r.Got? ==> r.id !in old(Ids()) && Ids() == old(Ids()) + {r.id}
      ensures r.Got? ==> forall k :: Low(kind) <= k < r.id ==> k == 0 || k in old(Ids())
      ensures !r.Got? ==> Ids() == old(Ids())
      ensures r.Got? <==> !deleted && (!old(Exhausted(kind)) || (old(CanGrow(mem)) && old(SomeFree(kind))))
      ensures nrIds == old(nrIds) + GROWTH * growths && (kind.User? || r.Got? ==> growths <= 1)
      ensures growths > 0 ==> maxIdx <= mem
      ensures !r.Got? && !r.NoEntry? ==> Exhausted(kind)
      ensures !r.Got? && !r.NoEntry? ==> !CanGrow(mem)
      ensures !r.Got? && !r.NoEntry? ==> r == if nrIds + GROWTH <= reservedIds then Invalid else NoMemory
    {
      hide WordsFor, IdsOf, WordsOk, NoneFree;
      growths := 0;
      var ok := GetRef();
      if !ok { return NoEntry, 0; }
      r := FindFreeId(kind);
      while r.NoEntry?
        invariant Shape() && counter == old(counter) + 1 && !deleted
        invariant r.NoEntry? || r.Got?
        invariant nrIds == old(nrIds) + GROWTH * growths
        invariant r.Got? ==> r.id != 0 && Low(kind) <= r.id < High(kind)
        invariant r.Got? ==> r.id !in old(Ids()) && Ids() == old(Ids()) + {r.id}
        invariant r.Got? ==> forall k :: Low(kind) <= k < r.id ==> k == 0 || k in old(Ids())
        invariant r.NoEntry? ==> Ids() == old(Ids()) && Exhausted(kind)
        invariant kind.User? ==> if r.NoEntry? then growths == 0 else growths <= 1
        invariant growths == 0 ==> (r.Got? <==> !old(Exhausted(kind)))
        invariant growths > 0 ==> old(Exhausted(kind)) && old(CanGrow(mem)) && (r.Got? <==> old(SomeFree(kind)))
        invariant (r.Got? ==> growths <= 1) && (growths > 0 ==> maxIdx <= mem)
        decreases r.NoEntry?, if maxIdx < mem then mem - maxIdx else 0
      {
        var rc;
        rc, r := GrowAndFind(kind, mem);
        if !rc.Done? {
          PutRef();
          return rc, growths;
        }
        growths := growths + 1;
      }
    }

    /** idbmap_get_specified_id: the map grows by one step only, and an identifier beyond that step is looked
        up outside the map. */
    method GetSpecifiedId(id: nat, kind: Kind, mem: nat) returns (r: Outcome)
      requires Valid() && !freed
      modifies this
      ensures Shape() && deleted == old(deleted) && (!r.Overrun? ==> Valid())
      ensures Ids() == if r.Got? then old(Ids()) + {id} else old(Ids())
      ensures
        var grow := id >= PER_WORD * old(maxIdx);
        r == if kind.System? && id >= reservedIds then Invalid
             else if deleted then NoEntry
             else if grow && old(nrIds) + GROWTH <= reservedIds then Invalid
             else if grow && WordsFor(old(nrIds) + GROWTH) > mem then NoMemory
             else if id >= PER_WORD * WordsFor(old(nrIds) + GROWTH) then Overrun
             else if id == 0 || id in old(Ids()) then Busy else Got(id)
      ensures nrIds == old(nrIds)
        + if id >= PER_WORD * old(maxIdx) && (r.Got? || r.Busy? || r.Overrun?) then GROWTH else 0
    {
      hide IdsOf, WordsOk, WordsFor, ResizeOutcome;
      NewWords(nrIds);
      GrowthOutcome(map_, nrIds, reservedIds, mem);
      if kind.System? && id >= reservedIds { return Invalid; }
      var ok := GetRef();
      if !ok { return NoEntry; }
      var idx, pos := id / PER_WORD, id % PER_WORD;
      InWord(map_, id);
      if idx >= maxIdx {
        r := ResizeBitmap(nrIds + GROWTH, mem);
        if !r.Done? {
          PutRef();
          return;
        }
      }
      InWord(map_, id);
      if idx >= maxIdx { return Overrun; }
      if pos in map_[idx] {
        PutRef();
        return Busy;
      }
      BitSet(map_, id);
      map_ := map_[idx := map_[idx] + {pos}];
      return Got(id);
    }

    /** idbmap_put_id: the last identifier of a destroyed map takes the map with it. */
    method PutId(id: nat)
      requires Valid() && !freed && id in Ids()
      modifies this
      ensures Valid() && deleted == old(deleted) && Ids() == old(Ids()) - {id}
      ensures (freed <==> deleted && old(Ids()) == {id}) && (!freed ==> nrIds == old(nrIds))
    {
      var idx, pos := id / PER_WORD, id % PER_WORD;
      BitSet(map_, id);
      map_ := map_[idx := map_[idx] - {pos}];
      assert |old(Ids())| == |Ids()| + 1 by { assert old(Ids()) == Ids() + {id}; }
      PutRef();
    }

    /** idbmap_destroy */
    method Destroy()
      requires Valid() && !freed && !deleted
      modifies this
      ensures Valid() && deleted && Ids() == old(Ids())
      ensures (freed <==> old(Ids()) == {}) && (!freed ==> nrIds == old(nrIds))
    {
      deleted := true;
      PutRef();
    }

    /** The resize succeeds with as many words as before while identifiers are in use. */
    ghost predicate Forgets(newIds: nat, mem: nat)
      reads this
    {
      && !deleted && newIds > reservedIds && WordsFor(newIds) == maxIdx && maxIdx <= mem && Ids() != {}
    }

    /** idbmap_resize: identifiers and references are kept if and only if the resize fails, changes the number
        of words, or finds no identifier in use; otherwise every identifier is forgotten. */
    method Resize(newIds: nat, mem: nat) returns (r: Outcome)
      requires Valid() && !freed
      modifies this
      ensures Shape() && deleted == old(deleted)
      ensures r == if deleted then NoEntry else ResizeOutcome(newIds, reservedIds, mem, old(Ids()))
      ensures nrIds == (if r.Done? then newIds else old(nrIds)) && counter == old(counter)
      ensures Valid() <==> !old(Forgets(newIds, mem))
      ensures Ids() == if old(Forgets(newIds, mem)) then {} else old(Ids())
    {
      IdsBelow(map_);
      hide IdsOf, WordsOk;
      var ok := GetRef();
      if !ok { return NoEntry; }
      r := ResizeBitmap(newIds, mem);
      PutRef();
    }

    /** idbmap_free */
    method Free() returns (r: Outcome)
      requires Valid() && !freed
      modifies this
      ensures Valid() && !freed && deleted == old(deleted) && Ids() == old(Ids())
      ensures r == if deleted then Invalid else if old(Ids()) == {} then Done else Busy
      ensures if r.Done? then map_ == [] && nrIds == 0 else map_ == old(map_) && nrIds == old(nrIds)
    {
      var ok := GetRef();
      if !ok { return Invalid; }
      r := FreeMap();
      PutRef();
    }
  }

  /** A word beyond the cut holds an identifier beyond the cut. */
  lemma Beyond(w: seq<Word>, n: nat, i: nat)
    requires WordsOk(w) && 0 < n <= i < |w| && w[i] != {}
    ensures exists id :: id in IdsOf(w) && id >= PER_WORD * n
  {
    var b :| b in w[i];
    var id := PER_WORD * i + b;
    assert id / PER_WORD == i && id % PER_WORD == b;
    assert BitOf(w, id) && id in IdsOf(w);
  }

  lemma NothingBeyond(w: seq<Word>, n: nat)
    requires WordsOk(w) && (forall i :: n <= i < |w| ==> w[i] == {})
    ensures forall id :: id in IdsOf(w) ==> id < PER_WORD * n
  {
  }

  lemma IdsBelow(w: seq<Word>)
    ensures forall id :: id in IdsOf(w) ==> id < PER_WORD * |w|
  {
  }

  /** A growth step adds words, and its last identifier lies in a new one. */
  lemma NewWords(n: nat)
    ensures WordsFor(n) < WordsFor(n + GROWTH)
    ensures PER_WORD * WordsFor(n) <= n + GROWTH - 1 < PER_WORD * WordsFor(n + GROWTH)
  {
  }

  /** A growth step is never busy. */
  lemma GrowthOutcome(w: seq<Word>, nrIds: nat, reservedIds: nat, mem: nat)
    requires |w| == WordsFor(nrIds)
    ensures ResizeOutcome(nrIds + GROWTH, reservedIds, mem, IdsOf(w)) ==
      if nrIds + GROWTH <= reservedIds then Invalid else if WordsFor(nrIds + GROWTH) > mem then NoMemory else Done
  {
    IdsBelow(w);
    NewWords(nrIds);
  }

  /** An identifier is handed out, forgotten by a resize to the same number of words, and handed out again. */
  method HandedOutTwice() returns (first: Outcome, second: Outcome)
    ensures first == Got(255) && second == first
  {
    hide IdsOf, WordsOk;
    var m := new IdMap(255);
    first := m.GetSpecifiedId(255, User, 1000);
    assert 255 in m.Ids() && m.maxIdx == 16;
    var rc := m.Resize(1000, 1000);
    assert rc.Done? && m.Ids() == {};
    ghost var growths;
    second, growths := m.GetId(User, 1000);
  }

  /** An identifier more than one growth step away is looked up outside the map. */
  method BeyondTheMap() returns (r: Outcome)
    ensures r == Overrun
  {
    hide IdsOf, WordsOk;
    var m := new IdMap(255);
    r := m.GetSpecifiedId(2000, User, 1000);
  }

  /** With no identifier below the reserved bound, a system request grows the map as far as memory allows. */
  method SystemRequestGrows() returns (r: Outcome, ghost growths: nat)
    ensures r == NoMemory && growths == 4
  {
    hide IdsOf, WordsOk;
    var m := new IdMap(1);
    r, growths := m.GetId(System, 64);
    assert m.nrIds == GROWTH * growths;
  }
}
