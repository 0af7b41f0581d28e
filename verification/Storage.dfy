/**
 The transactional store: two key-value maps and the one in use (StorageMap of
 src/store/storage_map.cc), the contract cache with its data wrappers
 (src/store/storage.h, src/store/data.h, src/store/map.h), flush and reset
 (src/store/storage.cc).  Every method is tied to what it does to a plain store.
 */
module Storage {
  import opened Wrappers
  import opened Buffers
  import opened KeySpace
  import opened Ledger
  import opened ValueCodec
  import opened Chain

  type KeyValues = map<string, seq<Byte>>

  datatype Status = Unchanged | Changed | Erased

  /** A data wrapper: its status and the value it has read or was given. */
  datatype Cell = Cell(status: Status, value: Option<Value>)

  // ---------------------------------------------------------------- stores and their keys

  ghost predicate AllTidy(s: Store) {
    forall f :: f in s ==> Tidy(f, s[f])
  }

  /** The keys of `kv` hold exactly the fields of `s`, serialized. */
  ghost predicate Holds(kv: KeyValues, s: Store) {
    AllTidy(s) && forall f :: Plain(f) ==> Kept(kv, s, f)
  }

  predicate Kept(kv: KeyValues, s: Store, f: Field) {
    (KeyOf(f) in kv <==> f in s) && (f in s ==> kv[KeyOf(f)] == Encode(f, s[f]))
  }

  lemma PutHolds(kv: KeyValues, s: Store, f: Field, v: Value)
    requires Holds(kv, s) && Tidy(f, v)
    ensures Holds(kv[KeyOf(f) := Encode(f, v)], s[f := v])
  {
    forall g | Plain(g)
      ensures Kept(kv[KeyOf(f) := Encode(f, v)], s[f := v], g)
    {
      assert Kept(kv, s, g);
      if KeyOf(g) == KeyOf(f) {
        KeysDistinct(f, g);
      }
    }
  }

  lemma PutMarkHolds(kv: KeyValues, s: Store, m: Field)
    requires Holds(kv, s) && IsMark(m) && Plain(m)
    ensures Holds(kv[KeyOf(m) := BytesOf(KeyOf(m))], Marked(s, m))
  {
    hide Holds, KeyOf;
    PutHolds(kv, s, m, Mark);
  }

  lemma DelHolds(kv: KeyValues, s: Store, f: Field)
    requires Holds(kv, s) && Plain(f)
    ensures Holds(kv - {KeyOf(f)}, s - {f})
  {
    forall g | Plain(g)
      ensures Kept(kv - {KeyOf(f)}, s - {f}, g)
    {
      assert Kept(kv, s, g);
      if KeyOf(g) == KeyOf(f) {
        KeysDistinct(f, g);
      }
    }
  }

  /** The value a wrapper of that type starts with; an empty curve cannot even be copied, and marks have no wrapper. */
  function Default(f: Field): Option<Value> {
    match f
    case AccountKey(_) => Some(Key(seq(KEY_BYTES, i => 0)))
    case TokenBase(_) => Some(Name(""))
    case TokenCurve(_) => None
    case AccountMark(_) => None
    case TokenMark(_) => None
    case _ => Some(Number(0))
  }

  /** What reading a field of a plain store gives. */
  function Look(s: Store, f: Field): Option<Value> {
    if f in s then Some(s[f]) else Default(f)
  }

  /** The two stores hold the same fields; only marks of new contracts tell them apart. */
  ghost predicate SameFields(applied: Store, checked: Store) {
    && (forall f :: f in checked ==> f in applied && applied[f] == checked[f])
    && (forall f :: f in applied && f !in checked ==> IsMark(f))
  }

  // ---------------------------------------------------------------- the overlay

  ghost function Written(cells: map<Field, Cell>): Store {
    map f | f in cells && cells[f].status.Changed? && cells[f].value.Some? :: cells[f].value.value
  }

  ghost function Gone(cells: map<Field, Cell>): set<Field> {
    set f | f in cells && cells[f].status.Erased?
  }

  /** A plain store that received the writes and erasures directly. */
  ghost function Overlaid(s: Store, cells: map<Field, Cell>): Store {
    (s + Written(cells)) - Gone(cells)
  }

  /** A cell is a wrapper inside a cached contract, and an unchanged one agrees with the store. */
  ghost predicate CellOk(s: Store, contracts: set<Field>, f: Field, c: Cell) {
    && Plain(f) && !IsMark(f) && Owner(f) in contracts
    && match c.status
       case Changed => c.value.Some? && Tidy(f, c.value.value)
       case Erased => c.value.None?
       case Unchanged => c.value.Some? ==> c.value == Look(s, f)
  }

  ghost predicate CellsOk(s: Store, contracts: set<Field>, cells: map<Field, Cell>) {
    forall f :: f in cells ==> CellOk(s, contracts, f, cells[f])
  }

  lemma WriteOverlays(s: Store, contracts: set<Field>, cells: map<Field, Cell>, f: Field, v: Value)
    requires CellsOk(s, contracts, cells) && Tidy(f, v) && !IsMark(f) && Owner(f) in contracts
    ensures CellsOk(s, contracts, cells[f := Cell(Changed, Some(v))])
    ensures Written(cells[f := Cell(Changed, Some(v))]) == Written(cells)[f := v]
    ensures Gone(cells[f := Cell(Changed, Some(v))]) == Gone(cells) - {f}
  {
    hide Fitting, Plain;
  }

  lemma EraseOverlays(s: Store, contracts: set<Field>, cells: map<Field, Cell>, f: Field)
    requires CellsOk(s, contracts, cells) && Plain(f) && !IsMark(f) && Owner(f) in contracts
    ensures CellsOk(s, contracts, cells[f := Cell(Erased, None)])
    ensures Written(cells[f := Cell(Erased, None)]) == Written(cells) - {f}
    ensures Gone(cells[f := Cell(Erased, None)]) == Gone(cells) + {f}
  {
    hide Plain;
  }

  lemma ReadOverlays(s: Store, contracts: set<Field>, cells: map<Field, Cell>, f: Field)
    requires CellsOk(s, contracts, cells) && Plain(f) && !IsMark(f) && Owner(f) in contracts
    requires f in cells ==> cells[f].status == Unchanged
    ensures CellsOk(s, contracts, cells[f := Cell(Unchanged, Look(s, f))])
    ensures Written(cells[f := Cell(Unchanged, Look(s, f))]) == Written(cells)
    ensures Gone(cells[f := Cell(Unchanged, Look(s, f))]) == Gone(cells)
  {
    hide Plain, Look;
  }

  lemma OverlayWrite(s: Store, w: Store, g: set<Field>, f: Field, v: Value)
    ensures (s + w[f := v]) - (g - {f}) == ((s + w) - g)[f := v]
    ensures (s + (w - {f})) - (g + {f}) == ((s + w) - g) - {f}
  {
  }

  /** What one cell contributes to the view. */
  lemma SeenThrough(s: Store, t: Store, contracts: set<Field>, cells: map<Field, Cell>, f: Field, c: Cell)
    requires CellsOk(t, contracts, cells) && !IsMark(f)
    requires f in s <==> f in t
    requires f in s ==> s[f] == t[f]
    requires c == if f in cells then cells[f] else Cell(Unchanged, None)
    ensures f in Gone(cells) <==> c.status == Erased
    ensures c.status == Changed ==> c.value.Some? && Look(Overlaid(s, cells), f) == c.value && Tidy(f, c.value.value)
    ensures c.status == Unchanged ==> Look(Overlaid(s, cells), f) == Look(s, f)
    ensures c.status == Unchanged && c.value.Some? ==> Look(s, f) == c.value
  {
    hide Tidy, Plain, Default;
    assert f in cells ==> CellOk(t, contracts, f, cells[f]);
  }

  lemma DefaultIsTidy(f: Field)
    requires Plain(f) && !IsMark(f)
    ensures Default(f).Some? ==> Tidy(f, Default(f).value)
  {
  }

  lemma LookEither(s: Store, t: Store, f: Field)
    requires f in s <==> f in t
    requires f in s ==> s[f] == t[f]
    ensures Look(s, f) == Look(t, f) == if f in s then Some(s[f]) else Default(f)
  {
  }

  lemma SameOverlay(s: Store, cells: map<Field, Cell>, cells': map<Field, Cell>)
    requires Written(cells) == Written(cells') && Gone(cells) == Gone(cells')
    ensures Overlaid(s, cells) == Overlaid(s, cells')
  {
  }

  /** A field of one store is a field of the other. */
  lemma FieldInBoth(applied: Store, checked: Store, f: Field)
    requires SameFields(applied, checked) && !IsMark(f)
    ensures f in applied <==> f in checked
    ensures f in applied ==> applied[f] == checked[f]
  {
  }

  /** Reading a key of a map that holds a store. */
  lemma HeldAt(kv: KeyValues, s: Store, f: Field)
    requires Holds(kv, s) && Plain(f)
    ensures KeyOf(f) in kv <==> f in s
    ensures f in s ==> kv[KeyOf(f)] == Encode(f, s[f]) && Tidy(f, s[f])
    ensures f in s && !IsMark(f) ==> DecodeValue(f, kv[KeyOf(f)]) == Some(s[f])
    ensures f in s && IsMark(f) ==> kv[KeyOf(f)] == BytesOf(KeyOf(f))
  {
    assert Kept(kv, s, f);
    if f in s && !IsMark(f) {
      ValueRoundTrip(f, s[f]);
    }
  }

  lemma MoreContracts(s: Store, contracts: set<Field>, cells: map<Field, Cell>, m: Field)
    requires CellsOk(s, contracts, cells)
    ensures CellsOk(s, contracts + {m}, cells)
  {
  }

  /** Marking a contract changes no cell's view. */
  lemma MarkKeepsCells(s: Store, contracts: set<Field>, cells: map<Field, Cell>, m: Field)
    requires CellsOk(s, contracts, cells) && IsMark(m)
    ensures CellsOk(Marked(s, m), contracts + {m}, cells)
  {
    hide Tidy, Plain, Default;
  }

  /** No wrapper covers a mark. */
  lemma MarksShowThrough(s: Store, t: Store, contracts: set<Field>, cells: map<Field, Cell>, m: Field)
    requires CellsOk(t, contracts, cells) && IsMark(m)
    ensures m in Overlaid(s, cells) <==> m in s
    ensures Overlaid(Marked(s, m), cells) == Marked(Overlaid(s, cells), m)
  {
    assert m !in cells by {
      assert m in cells ==> CellOk(t, contracts, m, cells[m]);
    }
  }

  lemma MarkInStores(applied: Store, checked: Store, m: Field)
    requires SameFields(applied, checked) && IsMark(m)
    ensures SameFields(Marked(applied, m), checked) || m in applied
  {
  }

  // ---------------------------------------------------------------- destruction

  /** What destroying a wrapper does to the store while flushing. */
  function Flushed(s: Store, f: Field, c: Cell): Store {
    match c.status
    case Unchanged => s
    case Changed => if c.value.Some? then s[f := c.value.value] else s
    case Erased => s - {f}
  }

  lemma FlushedCases(s: Store, f: Field, c: Cell)
    ensures c.status.Unchanged? ==> Flushed(s, f, c) == s
    ensures c.status.Changed? && c.value.Some? ==> Flushed(s, f, c) == s[f := c.value.value]
    ensures c.status.Erased? ==> Flushed(s, f, c) == s - {f}
  {
  }

  /** The cells that are already destroyed. */
  ghost function Without(cells: map<Field, Cell>, left: set<Field>): map<Field, Cell> {
    map f | f in cells && f !in left :: cells[f]
  }

  /** Destroying one wrapper more, with its cell spelled out. */
  lemma FlushCell(s: Store, w: map<Field, Cell>, f: Field, c: Cell)
    requires f !in w
    ensures Overlaid(s, w[f := c]) == Flushed(Overlaid(s, w), f, c)
  {
    var w' := w[f := c];
    if c.status.Changed? && c.value.Some? {
      assert Written(w') == Written(w)[f := c.value.value];
      assert Gone(w') == Gone(w);
      assert f !in Gone(w);
    } else if c.status.Erased? {
      assert Written(w') == Written(w);
      assert Gone(w') == Gone(w) + {f};
    } else {
      assert Written(w') == Written(w);
      assert Gone(w') == Gone(w);
    }
  }

  lemma FlushOne(s: Store, cells: map<Field, Cell>, left: set<Field>, f: Field)
    requires f in left && f in cells
    ensures Overlaid(s, Without(cells, left - {f})) == Flushed(Overlaid(s, Without(cells, left)), f, cells[f])
  {
    hide Overlaid, Flushed;
    assert Without(cells, left - {f}) == Without(cells, left)[f := cells[f]];
    FlushCell(s, Without(cells, left), f, cells[f]);
  }

  lemma FlushBounds(s: Store, cells: map<Field, Cell>)
    ensures Overlaid(s, Without(cells, cells.Keys)) == s
    ensures Overlaid(s, Without(cells, {})) == Overlaid(s, cells)
    ensures cells == map[] ==> Overlaid(s, cells) == s
  {
    assert Without(cells, cells.Keys) == map[] && Without(cells, {}) == cells;
    assert Written(map[]) == map[] && Gone(map[]) == {};
  }

  /** The store after the wrappers in `order` are destroyed one by one. */
  function FlushAll(s: Store, cells: map<Field, Cell>, order: seq<Field>): Store
    requires forall i :: 0 <= i < |order| ==> order[i] in cells
  {
    if order == [] then s
    else
      var (before, last) := (order[..|order| - 1], order[|order| - 1]);
      Flushed(FlushAll(s, cells, before), last, cells[last])
  }

  ghost predicate Distinct(order: seq<Field>) {
    forall i, j :: 0 <= i < j < |order| ==> order[i] != order[j]
  }

  lemma {:induction false} FlushSoFar(s: Store, cells: map<Field, Cell>, order: seq<Field>, left: set<Field>)
    requires (forall i :: 0 <= i < |order| ==> order[i] in cells) && Distinct(order)
    requires left == cells.Keys - (set f | f in order)
    ensures FlushAll(s, cells, order) == Overlaid(s, Without(cells, left))
    decreases |order|
  {
    hide Overlaid, Without, Flushed;
    if order == [] {
      FlushBounds(s, cells);
      assert left == cells.Keys;
    } else {
      var (before, last) := (order[..|order| - 1], order[|order| - 1]);
      assert order == before + [last];
      assert last !in before;
      assert left + {last} == cells.Keys - (set f | f in before);
      FlushSoFar(s, cells, before, left + {last});
      FlushOne(s, cells, left + {last}, last);
      assert left + {last} - {last} == left;
    }
  }

  /** In whatever order the cache is destroyed, the store becomes the one that had received the writes directly. */
  lemma FlushInAnyOrder(s: Store, cells: map<Field, Cell>, order: seq<Field>)
    requires Distinct(order) && (set f | f in order) == cells.Keys
    requires forall i :: 0 <= i < |order| ==> order[i] in cells
    ensures FlushAll(s, cells, order) == Overlaid(s, cells)
  {
    FlushSoFar(s, cells, order, {});
    FlushBounds(s, cells);
  }

  lemma NoContractsNoCells(s: Store, cells: map<Field, Cell>)
    requires CellsOk(s, {}, cells)
    ensures cells == map[]
  {
    assert forall f :: f !in cells;
  }

  lemma CellFacts(s: Store, contracts: set<Field>, cells: map<Field, Cell>, f: Field)
    requires CellsOk(s, contracts, cells) && f in cells
    ensures Plain(f) && (cells[f].status.Changed? ==> cells[f].value.Some? && Tidy(f, cells[f].value.value))
  {
    hide Tidy;
    assert CellOk(s, contracts, f, cells[f]);
  }

  class Storage {
    var applyCache: KeyValues
    var checkCache: KeyValues
    var current: Option<Mode>
    var isFlushing: bool
    /** The marks of the contracts in the cache, and the data wrappers they have handed out. */
    var contracts: set<Field>
    var cells: map<Field, Cell>
    /** The plain stores that the two maps serialize. */
    ghost var applied: Store
    ghost var checked: Store

    ghost function Stored(): Store
      reads `current, `applied, `checked
    {
      if current == Some(Checking) then checked else applied
    }

    /** What a transaction sees: the stored values with its own writes on top. */
    ghost function View(): Store
      reads `current, `applied, `checked, `cells
    {
      Overlaid(Stored(), cells)
    }

    ghost predicate StoresOk()
      reads `applyCache, `checkCache, `applied, `checked
    {
      Holds(applyCache, applied) && Holds(checkCache, checked) && SameFields(applied, checked)
    }

    ghost predicate CacheOk()
      reads `current, `contracts, `cells, `applied, `checked
    {
      && (forall m :: m in contracts ==> IsMark(m) && Plain(m) && m in (if current == Some(Checking) then checked else applied))
      && CellsOk(applied, contracts, cells)
      && (current == None ==> contracts == {})
    }

    ghost predicate Valid()
      reads this
    {
      StoresOk() && CacheOk() && !isFlushing
    }

    constructor ()
      ensures Valid() && applied == map[] && checked == map[] && current == None
      ensures contracts == {} && cells == map[]
    {
      applyCache := map[];
      checkCache := map[];
      current := None;
      isFlushing := false;
      contracts := {};
      cells := map[];
      applied := map[];
      checked := map[];
    }

    // -------------------------------------------------------------- storage_map.cc

    /** `get`: throws when no map is in use. */
    method Get(key: string) returns (ok: bool, value: Option<seq<Byte>>)
      ensures ok <==> current.Some?
      ensures ok ==>
                var kv := if current == Some(Checking) then checkCache else applyCache;
                value == if key in kv then Some(kv[key]) else None
    {
      if current.None? {
        return false, None;
      }
      var kv := if current == Some(Checking) then checkCache else applyCache;
      return true, if key in kv then Some(kv[key]) else None;
    }

    method PutKey(key: string, value: seq<Byte>) returns (ok: bool)
      modifies `applyCache, `checkCache
      ensures ok <==> current.Some?
      ensures applyCache == if current == Some(Applying) then old(applyCache)[key := value] else old(applyCache)
      ensures checkCache == if current == Some(Checking) then old(checkCache)[key := value] else old(checkCache)
    {
      if current.None? {
        return false;
      }
      if current.value.Checking? {
        checkCache := checkCache[key := value];
      } else {
        applyCache := applyCache[key := value];
      }
      return true;
    }

    method DelKey(key: string) returns (ok: bool)
      modifies `applyCache, `checkCache
      ensures ok <==> current.Some?
      ensures applyCache == if current == Some(Applying) then old(applyCache) - {key} else old(applyCache)
      ensures checkCache == if current == Some(Checking) then old(checkCache) - {key} else old(checkCache)
    {
      if current.None? {
        return false;
      }
      if current.value.Checking? {
        checkCache := checkCache - {key};
      } else {
        applyCache := applyCache - {key};
      }
      return true;
    }

    method CommitMaps()
      modifies `checkCache, `current, `checked
      ensures checkCache == applyCache && checked == applied && current == None
    {
      checkCache := applyCache;
      checked := applied;
      current := None;
    }

    /** Switching keeps the cache, so contracts cached in one mode are seen in the other. */
    method SwitchTo(mode: Mode)
      requires Valid() && forall m :: m in contracts ==> m in checked
      modifies `current
      ensures Valid() && current == Some(mode)
    {
      current := Some(mode);
    }

    // -------------------------------------------------------------- data.h

    /** `Data::operator+`: the last write of this transaction, or else the stored value, or else a default. */
    method ReadCell(f: Field) returns (r: Option<Value>)
      requires Valid() && Plain(f) && !IsMark(f) && Owner(f) in contracts
      modifies `cells
      ensures Valid() && View() == old(View())
      ensures Written(cells) == old(Written(cells)) && Gone(cells) == old(Gone(cells))
      ensures r == if f in Gone(cells) then None else Look(View(), f)
      ensures r.Some? ==> Tidy(f, r.value)
    {
      hide Holds, SameFields, CellsOk, Overlaid, Written, Gone, KeyOf, Encode, DecodeValue, Look, Plain, Tidy;
      DefaultIsTidy(f);
      var c := if f in cells then cells[f] else Cell(Unchanged, None);
      FieldInBoth(applied, checked, f);
      SeenThrough(Stored(), applied, contracts, cells, f, c);
      if c.status == Erased {
        return None;
      }
      HeldAt(applyCache, applied, f);
      HeldAt(checkCache, checked, f);
      LookEither(Stored(), applied, f);
      if c.value.Some? {
        return c.value;
      }
      var ok, raw := Get(KeyOf(f));
      if raw.Some? {
        r := Deserialize(f, raw.value);
      } else {
        r := Default(f);
      }
      ReadOverlays(applied, contracts, cells, f);
      SameOverlay(Stored(), cells, cells[f := Cell(Unchanged, r)]);
      cells := cells[f := Cell(Unchanged, r)];
    }

    /** `Data::operator=`. */
    method WriteCell(f: Field, v: Value)
      requires Valid() && Tidy(f, v) && !IsMark(f) && Owner(f) in contracts
      modifies `cells
      ensures Valid() && View() == old(View())[f := v] && Gone(cells) == old(Gone(cells)) - {f}
      ensures Written(cells) == old(Written(cells))[f := v]
    {
      hide Holds, SameFields, CellsOk, Written, Gone, Tidy, Plain;
      WriteOverlays(applied, contracts, cells, f, v);
      OverlayWrite(Stored(), Written(cells), Gone(cells), f, v);
      cells := cells[f := Cell(Changed, Some(v))];
    }

    /** `Data::erase`. */
    method EraseCell(f: Field)
      requires Valid() && Plain(f) && !IsMark(f) && Owner(f) in contracts
      modifies `cells
      ensures Valid() && View() == old(View()) - {f} && Gone(cells) == old(Gone(cells)) + {f}
    {
      hide Holds, SameFields, CellsOk, Written, Gone, Plain;
      EraseOverlays(applied, contracts, cells, f);
      OverlayWrite(Stored(), Written(cells), Gone(cells), f, Mark);
      cells := cells[f := Cell(Erased, None)];
    }

    // -------------------------------------------------------------- storage.h

    /** `getContract`: from the cache, or else from the store. */
    method GetContract(m: Field) returns (found: bool)
      requires Valid() && current.Some? && IsMark(m) && Plain(m)
      modifies `contracts
      ensures Valid() && (found <==> m in Stored()) && (found <==> m in View())
      ensures contracts == if found then old(contracts) + {m} else old(contracts)
    {
      hide Holds, SameFields, CellsOk, KeyOf, Encode, Plain, Overlaid;
      MarksShowThrough(Stored(), applied, contracts, cells, m);
      if m in contracts {
        return true;
      }
      var ok, raw := Get(KeyOf(m));
      HeldAt(applyCache, applied, m);
      HeldAt(checkCache, checked, m);
      if raw.None? {
        return false;
      }
      if raw.value != BytesOf(KeyOf(m)) {
        assert false;
      }
      MoreContracts(applied, contracts, cells, m);
      contracts := contracts + {m};
      return true;
    }

    /** The part of `create` before `init`: the key is put before anything about the new contract is known to be right. */
    method Create(m: Field) returns (ok: bool)
      requires Valid() && current == Some(Applying) && IsMark(m) && Plain(m)
      modifies `contracts, `applyCache, `checkCache, `applied
      ensures Valid() && (ok <==> m !in old(applied)) && (ok <==> m !in old(View()))
      ensures View() == if ok then Marked(old(View()), m) else old(View())
      ensures ok ==> applied == Marked(old(applied), m) && contracts == old(contracts) + {m}
      ensures !ok ==> applied == old(applied) && contracts == old(contracts) + {m}
    {
      hide Holds, SameFields, CellsOk, KeyOf, Encode, Plain, Overlaid;
      MarksShowThrough(applied, applied, contracts, cells, m);
      var found := GetContract(m);
      if found {
        return false;
      }
      PutMarkHolds(applyCache, applied, m);
      MarkInStores(applied, checked, m);
      MarkKeepsCells(applied, contracts, cells, m);
      contracts := contracts + {m};
      var put := PutKey(KeyOf(m), BytesOf(KeyOf(m)));
      applied := Marked(applied, m);
      return true;
    }

    // -------------------------------------------------------------- storage.cc

    /** A serialized put, and the same put on the plain store. */
    method PutField(f: Field, v: Value)
      requires Holds(applyCache, applied) && Holds(checkCache, checked) && Tidy(f, v) && current.Some?
      modifies `applyCache, `checkCache, `applied, `checked
      ensures Holds(applyCache, applied) && Holds(checkCache, checked)
      ensures applied == if current == Some(Applying) then old(applied)[f := v] else old(applied)
      ensures checked == if current == Some(Checking) then old(checked)[f := v] else old(checked)
    {
      hide Holds, KeyOf, Tidy, Encode;
      PutHolds(applyCache, applied, f, v);
      PutHolds(checkCache, checked, f, v);
      var raw := Serialize(f, v);
      var ok := PutKey(KeyOf(f), raw);
      assert ok;
      if current.value.Checking? {
        checked := checked[f := v];
      } else {
        applied := applied[f := v];
      }
    }

    method DelField(f: Field)
      requires Holds(applyCache, applied) && Holds(checkCache, checked) && Plain(f) && current.Some?
      modifies `applyCache, `checkCache, `applied, `checked
      ensures Holds(applyCache, applied) && Holds(checkCache, checked)
      ensures applied == if current == Some(Applying) then old(applied) - {f} else old(applied)
      ensures checked == if current == Some(Checking) then old(checked) - {f} else old(checked)
    {
      hide Holds, KeyOf, Plain;
      DelHolds(applyCache, applied, f);
      DelHolds(checkCache, checked, f);
      var ok := DelKey(KeyOf(f));
      assert ok;
      if current.value.Checking? {
        checked := checked - {f};
      } else {
        applied := applied - {f};
      }
    }

    /** The destructor of a data wrapper: it puts or deletes its key only while the storage is flushing. */
    method Destroy(f: Field, c: Cell)
      requires Holds(applyCache, applied) && Holds(checkCache, checked)
      requires Plain(f) && current.Some?
      requires c.status.Changed? ==> c.value.Some? && Tidy(f, c.value.value)
      modifies `applyCache, `checkCache, `applied, `checked
      ensures Holds(applyCache, applied) && Holds(checkCache, checked)
      ensures applied == if isFlushing && current == Some(Applying) then Flushed(old(applied), f, c) else old(applied)
      ensures checked == if isFlushing && current == Some(Checking) then Flushed(old(checked), f, c) else old(checked)
    {
      hide Holds, Tidy, Plain, Flushed;
      FlushedCases(applied, f, c);
      FlushedCases(checked, f, c);
      if !isFlushing {
        return;
      }
      match c.status {
        case Unchanged =>
        case Changed => PutField(f, c.value.value);
        case Erased => DelField(f);
      }
    }

    /** `cache.clear()`: the wrappers are destroyed in whatever order the hash map has them. */
    method Clear()
      requires StoresOk() && CacheOk()
      modifies `applyCache, `checkCache, `applied, `checked, `contracts, `cells
      ensures Holds(applyCache, applied) && Holds(checkCache, checked)
      ensures contracts == {} && cells == map[]
      ensures applied == if isFlushing && current != Some(Checking) then old(View()) else old(applied)
      ensures checked == if isFlushing && current == Some(Checking) then old(View()) else old(checked)
    {
      hide Holds, SameFields, CellsOk, Overlaid, Tidy, Plain, Without, Flushed;
      var left := cells.Keys;
      FlushBounds(applied, cells);
      FlushBounds(checked, cells);
      if current.None? {
        NoContractsNoCells(applied, cells);
      } else {
        assert current.value.Checking? || current.value.Applying?;
      }
      while left != {}
        invariant Holds(applyCache, applied) && Holds(checkCache, checked)
        invariant left <= cells.Keys && cells == old(cells) && current == old(current)
        invariant left != {} ==> current == Some(Checking) || current == Some(Applying)
        invariant applied == if isFlushing && current != Some(Checking)
                             then Overlaid(old(applied), Without(cells, left)) else old(applied)
        invariant checked == if isFlushing && current == Some(Checking)
                             then Overlaid(old(checked), Without(cells, left)) else old(checked)
        decreases left
      {
        var f :| f in left;
        CellFacts(old(applied), old(contracts), cells, f);
        FlushOne(old(applied), cells, left, f);
        FlushOne(old(checked), cells, left, f);
        Destroy(f, cells[f]);
        left := left - {f};
      }
      contracts := {};
      cells := map[];
    }

    /** `reset`: everything cached is dropped and nothing is stored. */
    method Reset()
      requires Valid()
      modifies `applyCache, `checkCache, `applied, `checked, `contracts, `cells
      ensures Valid() && contracts == {} && cells == map[]
      ensures applied == old(applied) && checked == old(checked)
    {
      hide Holds, SameFields, CellsOk, Overlaid;
      Clear();
      NoCells(applied);
    }

    lemma NoCells(s: Store)
      ensures CellsOk(s, {}, map[])
      ensures SameFields(s, s)
    {
    }

    /**
     `flush`: the store in use becomes what a plain store would be that had received
     the writes directly, then the check store becomes a copy of the apply store.
     */
    method Flush()
      requires Valid()
      modifies this
      ensures Valid() && contracts == {} && cells == map[] && current == None
      ensures applied == if old(current) == Some(Checking) then old(applied) else old(View())
      ensures checked == applied
    {
      hide Holds, SameFields, CellsOk, Overlaid;
      isFlushing := true;
      Clear();
      CommitMaps();
      isFlushing := false;
      NoCells(applied);
    }
  }
}
