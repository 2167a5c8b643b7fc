/** The synchronous event registry every component extends: a table from
    event name to an ordered list of handler slots, where `$off` leaves a
    null tombstone and `$emit` calls the live handlers in order and then
    compacts the list. Handlers are opaque identities. `$emitUpdate` diffs a
    plain key/value object against new values, writes the changes into it,
    and emits one event per changed key. */
module WideEvent {

  /** The JavaScript values that flow through `$emitUpdate` here. */
  datatype Value = Undefined | Bool(b: bool) | Num(n: int) | Str(s: string)

  /** A plain object: a property absent from the map reads as undefined. */
  type Obj = map<string, Value>

  /** One property of an object literal, in its key order. */
  type Field = (string, Value)

  /** The data argument of an emitted event. */
  datatype Data = NoData | Val(v: Value) | Fields(fs: seq<Field>)

  /** One `$emit(evt, data)` call. */
  datatype Emission = Emission(evt: string, data: Data)

  type Handler = nat

  /** A slot of a handler list: a registered handler or a null tombstone. */
  datatype Slot = Null | Cb(h: Handler)

  /** An `evt` argument: a single name, an array of names, or absent. */
  datatype EventArg = Absent | One(name: string) | Many(names: seq<string>)

  /** The names an `evt` argument stands for; an absent name is used as the
      property key "undefined". */
  function NamesOf(evt: EventArg): (r: seq<string>)
    ensures evt.One? ==> r == [evt.name]
    ensures evt.Many? ==> r == evt.names
  {
    match evt
    case Absent => ["undefined"]
    case One(n) => [n]
    case Many(ns) => ns
  }

  /** JavaScript truthiness of an `evt` argument (an array is always truthy). */
  predicate Truthy(evt: EventArg)
  {
    evt.Many? || (evt.One? && evt.name != "")
  }

  function Get(o: Obj, k: string): Value
  {
    if k in o then o[k] else Undefined
  }

  function KeysOf(fs: seq<Field>): (r: seq<string>)
    ensures |r| == |fs|
    ensures forall i :: 0 <= i < |fs| ==> r[i] == fs[i].0
  {
    if fs == [] then [] else [fs[0].0] + KeysOf(fs[1..])
  }

  /** The keys of an object literal are distinct. */
  ghost predicate DistinctKeys(fs: seq<Field>)
  {
    forall i, j :: 0 <= i < j < |fs| ==> fs[i].0 != fs[j].0
  }

  // ---------------------------------------------------------------------
  // Handler lists

  /** The handlers of a list, tombstones skipped, in list order. */
  function Live(l: seq<Slot>): (r: seq<Handler>)
    ensures |r| <= |l|
  {
    if l == [] then []
    else (if l[0].Cb? then [l[0].h] else []) + Live(l[1..])
  }

  /** `list.filter(e => e)`: the list with its tombstones removed. */
  function Compact(l: seq<Slot>): (r: seq<Slot>)
  {
    if l == [] then []
    else (if l[0].Cb? then [l[0]] else []) + Compact(l[1..])
  }

  /** Compaction leaves no tombstone and keeps the live handlers and their
      relative order, so it is also idempotent. */
  lemma {:induction false} CompactKeepsLive(l: seq<Slot>)
    ensures Null !in Compact(l)
    ensures Live(Compact(l)) == Live(l)
    ensures |Compact(l)| == |Live(l)|
    ensures Compact(Compact(l)) == Compact(l)
  {
    if l != [] {
      CompactKeepsLive(l[1..]);
      var rest := Compact(l[1..]);
      if l[0].Cb? {
        assert Compact(l) == [l[0]] + rest;
        assert Compact(l)[1..] == rest;
        assert Live(Compact(l)) == [l[0].h] + Live(rest);
        assert Compact(Compact(l)) == [l[0]] + Compact(rest);
      } else {
        assert Compact(l) == rest;
      }
    }
  }

  /** `es[es.indexOf(cb)] = null` when `es.includes(cb)`: the first slot
      holding cb becomes a tombstone. */
  function ReplaceFirst(l: seq<Slot>, cb: Slot): (r: seq<Slot>)
    ensures |r| == |l|
  {
    if l == [] then []
    else if l[0] == cb then [Null] + l[1..]
    else [l[0]] + ReplaceFirst(l[1..], cb)
  }

  /** The handler list with the first occurrence of h removed. */
  function RemoveFirst(hs: seq<Handler>, h: Handler): seq<Handler>
  {
    if hs == [] then []
    else if hs[0] == h then hs[1..]
    else [hs[0]] + RemoveFirst(hs[1..], h)
  }

  /** Unregistering a handler that is not registered leaves the list as it is. */
  lemma {:induction false} ReplaceFirstAbsent(l: seq<Slot>, cb: Slot)
    requires cb !in l
    ensures ReplaceFirst(l, cb) == l
  {
    if l != [] {
      ReplaceFirstAbsent(l[1..], cb);
    }
  }

  /** Unregistering a registered handler blanks exactly its first slot. */
  lemma ReplaceFirstBlanksFirst(l: seq<Slot>, cb: Slot)
    requires cb in l
    ensures var i := IndexOf(l, cb);
            ReplaceFirst(l, cb) == l[i := Null] && |ReplaceFirst(l, cb)| == |l|
  {
    FirstIndexReplace(l, cb, IndexOf(l, cb));
  }

  /** Unregistering removes exactly one occurrence of the handler from the
      live handlers, keeping the others in order (none when absent). */
  lemma {:induction false} ReplaceFirstLive(l: seq<Slot>, h: Handler)
    ensures Live(ReplaceFirst(l, Cb(h))) == RemoveFirst(Live(l), h)
  {
    if l != [] {
      ReplaceFirstLive(l[1..], h);
      var r := ReplaceFirst(l, Cb(h));
      if l[0] == Cb(h) {
        assert r == [Null] + l[1..];
        assert r[1..] == l[1..];
        assert Live(l) == [h] + Live(l[1..]);
      } else {
        assert r == [l[0]] + ReplaceFirst(l[1..], Cb(h));
        assert r[1..] == ReplaceFirst(l[1..], Cb(h));
        if l[0].Cb? {
          assert Live(l) == [l[0].h] + Live(l[1..]);
          assert Live(r) == [l[0].h] + Live(r[1..]);
        } else {
          assert Live(l) == Live(l[1..]);
          assert Live(r) == Live(r[1..]);
        }
      }
    }
  }

  /** `$on` registering cb under each of `names`, in order, duplicates allowed. */
  function Register(table: map<string, seq<Slot>>, names: seq<string>, cb: Slot): map<string, seq<Slot>>
    decreases |names|
  {
    if names == [] then table
    else
      var e := names[0];
      Register(table[e := (if e in table then table[e] else []) + [cb]], names[1..], cb)
  }

  /** How many times `e` occurs in `names`. */
  function Occurrences(names: seq<string>, e: string): nat
  {
    if names == [] then 0 else (if names[0] == e then 1 else 0) + Occurrences(names[1..], e)
  }

  function Repeat(cb: Slot, n: nat): (r: seq<Slot>)
    ensures |r| == n
    ensures forall i :: 0 <= i < n ==> r[i] == cb
  {
    if n == 0 then [] else [cb] + Repeat(cb, n - 1)
  }

  /** After `$on(names, cb)` each event's list is its old list followed by one
      copy of cb per occurrence of the event among `names`; no other list
      changes and no list loses an entry. */
  lemma {:induction false} RegisterAppends(table: map<string, seq<Slot>>, names: seq<string>, cb: Slot, e: string)
    ensures var t := Register(table, names, cb);
            && (e in t <==> e in table || Occurrences(names, e) > 0)
            && (if e in t then t[e] else [])
               == (if e in table then table[e] else []) + Repeat(cb, Occurrences(names, e))
    decreases |names|
  {
    if names != [] {
      var n := names[0];
      var t1 := table[n := (if n in table then table[n] else []) + [cb]];
      RegisterAppends(t1, names[1..], cb, e);
      if n == e {
        assert Repeat(cb, Occurrences(names, e)) == [cb] + Repeat(cb, Occurrences(names[1..], e));
      }
    }
  }

  /** `$off` applied to each of `names`: blank the first slot holding cb, and
      drop the whole list when cb is falsy. */
  function Unregister(table: map<string, seq<Slot>>, names: seq<string>, cb: Slot): map<string, seq<Slot>>
    decreases |names|
  {
    if names == [] then table
    else
      var e := names[0];
      var t1 := if e !in table then table
                else if cb == Null then table - {e}
                else table[e := ReplaceFirst(table[e], cb)];
      Unregister(t1, names[1..], cb)
  }

  /** Unregistering a handler by name never changes the length of a list nor
      which events have lists; unregistering without a handler deletes
      exactly the named lists. */
  lemma {:induction false} UnregisterShape(table: map<string, seq<Slot>>, names: seq<string>, cb: Slot, e: string)
    ensures var t := Unregister(table, names, cb);
            && (cb.Cb? ==> t.Keys == table.Keys && (e in t ==> |t[e]| == |table[e]|))
            && (cb == Null ==> t == table - set n | n in names)
    decreases |names|
  {
    if names != [] {
      var n := names[0];
      var t1 := if n !in table then table
                else if cb == Null then table - {n}
                else table[n := ReplaceFirst(table[n], cb)];
      UnregisterShape(t1, names[1..], cb, e);
      if cb == Null {
        assert (t1 - set m | m in names[1..]) == table - set m | m in names;
      }
    }
  }

  // ---------------------------------------------------------------------
  // $emitUpdate

  /** The loop of `$emitUpdate(oldObj, newObj)`: for each key of newObj, in
      key order, a value that differs from oldObj's is written into oldObj and
      emitted under the key's own name. */
  function UpdateFrom(o: Obj, fs: seq<Field>): (Obj, seq<Emission>)
    decreases |fs|
  {
    if fs == [] then (o, [])
    else
      var k := fs[0].0;
      var v := fs[0].1;
      var changed := Get(o, k) != v;
      var rest := UpdateFrom(if changed then o[k := v] else o, fs[1..]);
      (rest.0, (if changed then [Emission(k, Val(v))] else []) + rest.1)
  }

  /** The whole of `$emitUpdate(oldObj, newObj, prefix)`: the updated object,
      every event emitted (the per-key ones, then the aggregate `prefix` event
      carrying newObj when anything changed and the prefix is truthy), and
      the returned flag. */
  function EmitUpdate(o: Obj, fs: seq<Field>, prefix: string): (Obj, seq<Emission>, bool)
  {
    var (o', es) := UpdateFrom(o, fs);
    var any := es != [];
    (o', es + (if prefix != "" && any then [Emission(prefix, Fields(fs))] else []), any)
  }

  /** `$emitUpdate` of one property with no aggregate event: the value
      is written and emitted exactly when it differs. */
  lemma UpdateOne(o: Obj, k: string, v: Value)
    ensures EmitUpdate(o, [(k, v)], "") ==
      if Get(o, k) != v then (o[k := v], [Emission(k, Val(v))], true) else (o, [], false)
  {
    var fs := [(k, v)];
    assert fs[0] == (k, v) && fs[1..] == [];
    var o1 := if Get(o, k) != v then o[k := v] else o;
    assert UpdateFrom(o1, fs[1..]) == (o1, []);
    var es: seq<Emission> := if Get(o, k) != v then [Emission(k, Val(v))] else [];
    assert UpdateFrom(o, fs) == (o1, es + []);
    assert es + [] == es;
  }

  /** The loop of `$emitUpdate` extended by one more key. */
  lemma {:induction false} UpdateFromSnoc(o: Obj, fs: seq<Field>, f: Field)
    ensures var (o1, es) := UpdateFrom(o, fs);
            var changed := Get(o1, f.0) != f.1;
            UpdateFrom(o, fs + [f])
            == (if changed then o1[f.0 := f.1] else o1, es + (if changed then [Emission(f.0, Val(f.1))] else []))
    decreases |fs|
  {
    if fs == [] {
      assert [] + [f] == [f];
      assert [f][1..] == [];
      var x: seq<Emission> := if Get(o, f.0) != f.1 then [Emission(f.0, Val(f.1))] else [];
      assert x + [] == x && [] + x == x;
    } else {
      var o1 := if Get(o, fs[0].0) != fs[0].1 then o[fs[0].0 := fs[0].1] else o;
      var e0: seq<Emission> := if Get(o, fs[0].0) != fs[0].1 then [Emission(fs[0].0, Val(fs[0].1))] else [];
      assert (fs + [f])[0] == fs[0] && (fs + [f])[1..] == fs[1..] + [f];
      UpdateFromSnoc(o1, fs[1..], f);
      var (o2, es2) := UpdateFrom(o1, fs[1..]);
      var x: seq<Emission> := if Get(o2, f.0) != f.1 then [Emission(f.0, Val(f.1))] else [];
      assert UpdateFrom(o, fs) == (o2, e0 + es2);
      assert UpdateFrom(o, fs + [f]).1 == e0 + (es2 + x);
      assert e0 + (es2 + x) == (e0 + es2) + x;
    }
  }

  /** The per-key events judged against the ORIGINAL object. */
  function Changed(o: Obj, fs: seq<Field>): seq<Emission>
  {
    if fs == [] then []
    else (if Get(o, fs[0].0) != fs[0].1 then [Emission(fs[0].0, Val(fs[0].1))] else []) + Changed(o, fs[1..])
  }

  /** The value newObj gives to k, when k is one of its keys. */
  function ValueOf(fs: seq<Field>, k: string): Value
  {
    if fs == [] then Undefined else if fs[0].0 == k then fs[0].1 else ValueOf(fs[1..], k)
  }

  /** With distinct keys, `$emitUpdate` leaves every key of newObj holding
      newObj's value and every other property as it was, and emits exactly
      the keys whose old value differed, in key order. */
  lemma {:induction false} UpdateFromSpec(o: Obj, fs: seq<Field>, k: string)
    requires DistinctKeys(fs)
    ensures Get(UpdateFrom(o, fs).0, k) == (if k in KeysOf(fs) then ValueOf(fs, k) else Get(o, k))
    ensures UpdateFrom(o, fs).1 == Changed(o, fs)
    decreases |fs|
  {
    if fs != [] {
      var k0 := fs[0].0;
      var v0 := fs[0].1;
      var o1 := if Get(o, k0) != v0 then o[k0 := v0] else o;
      assert DistinctKeys(fs[1..]);
      UpdateFromSpec(o1, fs[1..], k);
      assert KeysOf(fs) == [k0] + KeysOf(fs[1..]);
      ChangedIgnoresOtherKeys(o, o1, fs[1..], k0);
    }
  }

  /** Changing a property that newObj does not mention does not change which
      of newObj's keys differ. */
  lemma {:induction false} ChangedIgnoresOtherKeys(o: Obj, o1: Obj, fs: seq<Field>, k0: string)
    requires k0 !in KeysOf(fs)
    requires forall k :: k != k0 ==> Get(o1, k) == Get(o, k)
    ensures Changed(o1, fs) == Changed(o, fs)
  {
    if fs != [] {
      assert KeysOf(fs) == [fs[0].0] + KeysOf(fs[1..]);
      ChangedIgnoresOtherKeys(o, o1, fs[1..], k0);
    }
  }

  /** `$emitUpdate` reports a change exactly when some key of newObj held a
      different value. */
  lemma {:induction false} ChangedIff(o: Obj, fs: seq<Field>)
    ensures Changed(o, fs) != [] <==> exists i :: 0 <= i < |fs| && Get(o, fs[i].0) != fs[i].1
  {
    if fs != [] {
      ChangedIff(o, fs[1..]);
      if Changed(o, fs[1..]) != [] {
        var i :| 0 <= i < |fs[1..]| && Get(o, fs[1..][i].0) != fs[1..][i].1;
        assert Get(o, fs[i + 1].0) != fs[i + 1].1;
      }
      if Get(o, fs[0].0) == fs[0].1 && (exists i :: 0 <= i < |fs| && Get(o, fs[i].0) != fs[i].1) {
        var i :| 0 <= i < |fs| && Get(o, fs[i].0) != fs[i].1;
        assert i > 0 && Get(o, fs[1..][i - 1].0) != fs[1..][i - 1].1;
      }
    }
  }

  /** Nothing differs from an object once all of newObj's values are in it. */
  lemma {:induction false} ChangedNoneWhenApplied(o: Obj, fs: seq<Field>)
    requires forall i :: 0 <= i < |fs| ==> Get(o, fs[i].0) == fs[i].1
    ensures Changed(o, fs) == []
  {
    if fs != [] {
      ChangedNoneWhenApplied(o, fs[1..]);
    }
  }

  /** `$emitUpdate` is idempotent: repeating it with the same newObj changes
      nothing, emits nothing and returns false. */
  lemma EmitUpdateIdempotent(o: Obj, fs: seq<Field>, prefix: string)
    requires DistinctKeys(fs)
    ensures var (o1, _, _) := EmitUpdate(o, fs, prefix);
            EmitUpdate(o1, fs, prefix) == (o1, [], false)
  {
    var o1 := UpdateFrom(o, fs).0;
    forall i | 0 <= i < |fs| ensures Get(o1, fs[i].0) == fs[i].1 {
      UpdateFromSpec(o, fs, fs[i].0);
      ValueOfDistinct(fs, i);
    }
    ChangedNoneWhenApplied(o1, fs);
    UpdateFromSpec(o1, fs, "");
    UnchangedWhenNoneDiffer(o1, fs);
  }

  /** With distinct keys, newObj's value for its i-th key is its i-th value. */
  lemma {:induction false} ValueOfDistinct(fs: seq<Field>, i: nat)
    requires DistinctKeys(fs) && i < |fs|
    ensures fs[i].0 in KeysOf(fs) && ValueOf(fs, fs[i].0) == fs[i].1
  {
    if i > 0 {
      assert DistinctKeys(fs[1..]);
      ValueOfDistinct(fs[1..], i - 1);
      assert KeysOf(fs) == [fs[0].0] + KeysOf(fs[1..]);
    }
  }

  /** When no key differs the loop writes nothing. */
  lemma {:induction false} UnchangedWhenNoneDiffer(o: Obj, fs: seq<Field>)
    requires forall i :: 0 <= i < |fs| ==> Get(o, fs[i].0) == fs[i].1
    ensures UpdateFrom(o, fs).0 == o
    decreases |fs|
  {
    if fs != [] {
      UnchangedWhenNoneDiffer(o, fs[1..]);
    }
  }

  // ---------------------------------------------------------------------
  // The registry object

  /** One handler invocation: which handler, for which event, with what data. */
  datatype Call = Call(handler: Handler, evt: string, data: Data)

  function CallsOf(hs: seq<Handler>, evt: string, data: Data): (r: seq<Call>)
    ensures |r| == |hs|
  {
    if hs == [] then [] else [Call(hs[0], evt, data)] + CallsOf(hs[1..], evt, data)
  }

  /** A plain object whose properties `$emitUpdate` overwrites in place. */
  class JsObject {
    var fields: Obj

    constructor (init: Obj)
      ensures fields == init
    {
      fields := init;
    }
  }

  class Registry {
    /** The handler table, `this[eSym]`. */
    var table: map<string, seq<Slot>>
    /** Every handler invocation made so far, in order. */
    var calls: seq<Call>

    constructor ()
      ensures table == map[] && calls == []
    {
      table := map[];
      calls := [];
    }

    /** The live handlers of an event, in registration order. */
    function Handlers(evt: string): seq<Handler>
      reads this
    {
      if evt in table then Live(table[evt]) else []
    }

    /** `$on(evt, cb)`: a falsy cb is ignored; otherwise cb is appended to
        each named event's list. */
    method On(evt: EventArg, cb: Slot)
      modifies this
      ensures table == (if cb == Null then old(table) else Register(old(table), NamesOf(evt), cb))
      ensures calls == old(calls)
    {
      if cb != Null {
        var names := NamesOf(evt);
        var i := 0;
        while i < |names|
          invariant 0 <= i <= |names|
          invariant Register(old(table), names, cb) == Register(table, names[i..], cb)
          invariant calls == old(calls)
        {
          var e := names[i];
          ghost var t0 := table;
          assert names[i..][0] == e && names[i..][1..] == names[i + 1..];
          if e in table {
            table := table[e := table[e] + [cb]];
          } else {
            table := table[e := [cb]];
          }
          assert [] + [cb] == [cb];
          assert table == t0[e := (if e in t0 then t0[e] else []) + [cb]];
          i := i + 1;
        }
      }
    }

    /** `$off(evt, cb)`: with neither argument truthy the table is cleared;
        otherwise, for each named event, the first slot holding cb is blanked
        and, when cb is falsy, the event's list is deleted. */
    method Off(evt: EventArg, cb: Slot)
      modifies this
      ensures table == (if !Truthy(evt) && cb == Null then map[] else Unregister(old(table), NamesOf(evt), cb))
      ensures calls == old(calls)
    {
      if !Truthy(evt) && cb == Null {
        table := map[];
      } else {
        var names := NamesOf(evt);
        var i := 0;
        while i < |names|
          invariant 0 <= i <= |names|
          invariant Unregister(old(table), names, cb) == Unregister(table, names[i..], cb)
          invariant calls == old(calls)
        {
          var e := names[i];
          ghost var t0 := table;
          assert names[i..][0] == e && names[i..][1..] == names[i + 1..];
          if e in table {
            var es := table[e];
            if cb in es {
              var at := IndexOf(es, cb);
              table := table[e := es[at := Null]];
              FirstIndexReplace(es, cb, at);
            } else {
              ReplaceFirstAbsent(es, cb);
            }
            if cb == Null {
              table := table - {e};
            }
          }
          assert table == if e !in t0 then t0
                          else if cb == Null then t0 - {e}
                          else t0[e := ReplaceFirst(t0[e], cb)];
          i := i + 1;
        }
      }
    }

    /** `$emit(evt, data)`: invokes the live handlers of evt in list order,
        then compacts the list. Returns the handlers it invoked. */
    method Emit(evt: string, data: Data) returns (invoked: seq<Handler>)
      modifies this
      ensures invoked == old(Handlers(evt))
      ensures calls == old(calls) + CallsOf(invoked, evt, data)
      ensures table == if evt in old(table) then old(table)[evt := Compact(old(table)[evt])] else old(table)
    {
      invoked := [];
      if evt in table {
        var es := table[evt];
        assert es[..|es|] == es;
        var i := 0;
        while i < |es|
          invariant 0 <= i <= |es|
          invariant invoked == Live(es[..i])
          invariant calls == old(calls) + CallsOf(invoked, evt, data)
          invariant table == old(table)
        {
          LiveSnoc(es[..i], es[i]);
          assert es[..i + 1] == es[..i] + [es[i]];
          CallsOfSnoc(invoked, es[i], evt, data);
          if es[i].Cb? {
            calls := calls + [Call(es[i].h, evt, data)];
            invoked := invoked + [es[i].h];
          }
          i := i + 1;
        }
        var kept: seq<Slot> := [];
        i := 0;
        while i < |es|
          invariant 0 <= i <= |es|
          invariant kept == Compact(es[..i])
          invariant table == old(table) && calls == old(calls) + CallsOf(invoked, evt, data)
        {
          CompactSnoc(es[..i], es[i]);
          assert es[..i + 1] == es[..i] + [es[i]];
          if es[i].Cb? {
            kept := kept + [es[i]];
          }
          i := i + 1;
        }
        table := table[evt := kept];
      }
    }

    /** `$emitUpdate(target, newObj, prefix)`: writes every differing value of
        newObj into target, emitting each under its key, then emits `prefix`
        with newObj when anything changed. Returns whether anything changed. */
    method EmitUpdateOn(target: JsObject, fs: seq<Field>, prefix: string) returns (any: bool)
      modifies this, target
      ensures target.fields == EmitUpdate(old(target.fields), fs, prefix).0
      ensures any == EmitUpdate(old(target.fields), fs, prefix).2
      ensures calls == old(calls) + Deliver(EmitUpdate(old(target.fields), fs, prefix).1, LiveView(old(table)))
      ensures LiveView(table) == LiveView(old(table))
    {
      ghost var emitted;
      any, emitted := ApplyChanges(target, fs);
      if prefix != "" && any {
        EmitInView(prefix, Fields(fs), LiveView(old(table)), old(calls), emitted);
      } else {
        assert emitted + [] == emitted;
      }
    }

    /** The `forEach` over newObj's keys inside `$emitUpdate`. */
    method ApplyChanges(target: JsObject, fs: seq<Field>) returns (any: bool, ghost emitted: seq<Emission>)
      modifies this, target
      ensures target.fields == UpdateFrom(old(target.fields), fs).0
      ensures emitted == UpdateFrom(old(target.fields), fs).1
      ensures any == (emitted != [])
      ensures calls == old(calls) + Deliver(emitted, LiveView(old(table)))
      ensures LiveView(table) == LiveView(old(table))
    {
      ghost var view := LiveView(table);
      ghost var c0 := calls;
      ghost var o0 := target.fields;
      any := false;
      var i := 0;
      emitted := [];
      while i < |fs|
        invariant 0 <= i <= |fs|
        invariant target.fields == UpdateFrom(o0, fs[..i]).0
        invariant emitted == UpdateFrom(o0, fs[..i]).1
        invariant any == (emitted != [])
        invariant calls == c0 + Deliver(emitted, view)
        invariant LiveView(table) == view
      {
        UpdateFromSnoc(o0, fs[..i], fs[i]);
        assert fs[..i + 1] == fs[..i] + [fs[i]];
        var changed := ApplyOne(target, fs[i].0, fs[i].1, view, c0, emitted);
        emitted := emitted + (if changed then [Emission(fs[i].0, Val(fs[i].1))] else []);
        any := any || changed;
        i := i + 1;
      }
      assert fs[..i] == fs;
    }

    /** One key of the `forEach`: write and emit the value when it differs. */
    method ApplyOne(target: JsObject, k: string, v: Value, ghost view: map<string, seq<Handler>>,
                    ghost c0: seq<Call>, ghost before: seq<Emission>) returns (changed: bool)
      requires LiveView(table) == view && calls == c0 + Deliver(before, view)
      modifies this, target
      ensures changed == (Get(old(target.fields), k) != v)
      ensures target.fields == if changed then old(target.fields)[k := v] else old(target.fields)
      ensures LiveView(table) == view
      ensures calls == c0 + Deliver(before + (if changed then [Emission(k, Val(v))] else []), view)
    {
      changed := Get(target.fields, k) != v;
      if changed {
        target.fields := target.fields[k := v];
        EmitInView(k, Val(v), view, c0, before);
      } else {
        assert before + [] == before;
      }
    }

    /** `$emit` seen through the live view, which it leaves as it is. */
    method EmitInView(evt: string, data: Data, ghost view: map<string, seq<Handler>>,
                      ghost c0: seq<Call>, ghost before: seq<Emission>)
      requires LiveView(table) == view && calls == c0 + Deliver(before, view)
      modifies this
      ensures LiveView(table) == view
      ensures calls == c0 + Deliver(before + [Emission(evt, data)], view)
    {
      ghost var t0, c1 := table, calls;
      var invoked := Emit(evt, data);
      EmitKeepsView(t0, table, evt, data, view, c0, c1, calls, before, invoked);
    }
  }

  /** What one `$emit` does to the live view and to the invocation log. */
  lemma EmitKeepsView(t0: map<string, seq<Slot>>, t1: map<string, seq<Slot>>, evt: string, data: Data,
                      view: map<string, seq<Handler>>, c0: seq<Call>, c1: seq<Call>, c2: seq<Call>,
                      before: seq<Emission>, invoked: seq<Handler>)
    requires LiveView(t0) == view && c1 == c0 + Deliver(before, view)
    requires invoked == (if evt in t0 then Live(t0[evt]) else [])
    requires c2 == c1 + CallsOf(invoked, evt, data)
    requires t1 == if evt in t0 then t0[evt := Compact(t0[evt])] else t0
    ensures LiveView(t1) == view
    ensures c2 == c0 + Deliver(before + [Emission(evt, data)], view)
  {
    ViewLookup(t0, evt);
    if evt in t0 {
      CompactSameLive(t0, evt);
    }
    LogAppend(c0, c1, c2, before, Emission(evt, data), view, invoked);
  }

  lemma LogAppend(c0: seq<Call>, c1: seq<Call>, c2: seq<Call>, before: seq<Emission>, e: Emission,
                  view: map<string, seq<Handler>>, invoked: seq<Handler>)
    requires c1 == c0 + Deliver(before, view)
    requires invoked == (if e.evt in view then view[e.evt] else [])
    requires c2 == c1 + CallsOf(invoked, e.evt, e.data)
    ensures c2 == c0 + Deliver(before + [e], view)
  {
    DeliverAppend(before, e, view);
  }

  /** An event's live handlers read through the live view. */
  lemma ViewLookup(t: map<string, seq<Slot>>, k: string)
    ensures (if k in t then Live(t[k]) else []) == (if k in LiveView(t) then LiveView(t)[k] else [])
  {
  }

  /** The live handlers of every event of a table. */
  function LiveView(t: map<string, seq<Slot>>): map<string, seq<Handler>>
  {
    map e | e in t :: Live(t[e])
  }

  /** Compacting one list of a table keeps its live view. */
  lemma CompactSameLive(t: map<string, seq<Slot>>, evt: string)
    requires evt in t
    ensures LiveView(t[evt := Compact(t[evt])]) == LiveView(t)
  {
    CompactKeepsLive(t[evt]);
    assert LiveView(t[evt := Compact(t[evt])]).Keys == LiveView(t).Keys;
  }

  /** The invocations a sequence of emissions makes against a table whose
      live view stays `view` meanwhile. */
  function Deliver(es: seq<Emission>, view: map<string, seq<Handler>>): seq<Call>
  {
    if es == [] then []
    else CallsOf(if es[0].evt in view then view[es[0].evt] else [], es[0].evt, es[0].data) + Deliver(es[1..], view)
  }

  lemma {:induction false} DeliverAppend(es: seq<Emission>, e: Emission, view: map<string, seq<Handler>>)
    ensures Deliver(es + [e], view)
            == Deliver(es, view) + CallsOf(if e.evt in view then view[e.evt] else [], e.evt, e.data)
  {
    if es == [] {
      assert [] + [e] == [e];
      assert Deliver([e], view) == CallsOf(if e.evt in view then view[e.evt] else [], e.evt, e.data) + Deliver([], view);
    } else {
      assert (es + [e])[0] == es[0];
      assert (es + [e])[1..] == es[1..] + [e];
      DeliverAppend(es[1..], e, view);
    }
  }

  lemma {:induction false} LiveSnoc(l: seq<Slot>, x: Slot)
    ensures Live(l + [x]) == Live(l) + (if x.Cb? then [x.h] else [])
  {
    if l != [] {
      assert (l + [x])[1..] == l[1..] + [x];
      LiveSnoc(l[1..], x);
    }
  }

  lemma {:induction false} CompactSnoc(l: seq<Slot>, x: Slot)
    ensures Compact(l + [x]) == Compact(l) + (if x.Cb? then [x] else [])
  {
    if l != [] {
      assert (l + [x])[1..] == l[1..] + [x];
      CompactSnoc(l[1..], x);
    }
  }

  lemma {:induction false} CallsOfSnoc(hs: seq<Handler>, x: Slot, evt: string, data: Data)
    ensures x.Cb? ==> CallsOf(hs + [x.h], evt, data) == CallsOf(hs, evt, data) + [Call(x.h, evt, data)]
  {
    if x.Cb? && hs != [] {
      assert (hs + [x.h])[1..] == hs[1..] + [x.h];
      CallsOfSnoc(hs[1..], x, evt, data);
    }
  }

  /** Position of the first slot equal to cb (`indexOf`). */
  function IndexOf(l: seq<Slot>, cb: Slot): (i: nat)
    requires cb in l
    ensures i < |l| && l[i] == cb && cb !in l[..i]
  {
    if l[0] == cb then 0
    else
      var j := IndexOf(l[1..], cb);
      assert l[..j + 1] == [l[0]] + l[1..][..j];
      j + 1
  }

  /** Blanking the first occurrence is ReplaceFirst. */
  lemma {:induction false} FirstIndexReplace(l: seq<Slot>, cb: Slot, at: nat)
    requires at < |l| && l[at] == cb && cb !in l[..at]
    ensures ReplaceFirst(l, cb) == l[at := Null]
  {
    if at > 0 {
      assert l[0] != cb by { assert l[0] == l[..at][0]; }
      assert l[1..][..at - 1] == l[..at][1..];
      FirstIndexReplace(l[1..], cb, at - 1);
      assert l[at := Null] == [l[0]] + l[1..][at - 1 := Null];
    }
  }
}
