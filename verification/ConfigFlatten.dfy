/** The flat view of a configuration tree, and rebuilding the tree from it. */
module ConfigFlatten {
  import opened Options
  import opened ConfigTree

  // ---- keys and paths ----

  predicate IsDotFree(w: string) {
    forall i :: 0 <= i < |w| ==> w[i] != '.'
  }

  predicate AllDotFree(path: seq<string>) {
    forall i :: 0 <= i < |path| ==> IsDotFree(path[i])
  }

  predicate NoneEmpty(path: seq<string>) {
    forall i :: 0 <= i < |path| ==> path[i] != ""
  }

  function JoinKey(path: seq<string>): string {
    if path == [] then "" else if |path| == 1 then path[0] else path[0] + ("." + JoinKey(path[1..]))
  }

  lemma {:induction false} SplitPlain(w: string)
    requires IsDotFree(w)
    ensures SplitKey(w) == [w]
  {
    if w != "" {
      SplitPlain(w[1..]);
      assert [w[0]] + w[1..] == w;
    }
  }

  lemma {:induction false} SplitDotted(w: string, rest: string)
    requires IsDotFree(w)
    ensures SplitKey(w + ("." + rest)) == [w] + SplitKey(rest)
  {
    var t := w + ("." + rest);
    if w == "" {
      assert t[0] == '.' && t[1..] == rest;
    } else {
      assert t[0] == w[0] && t[1..] == w[1..] + ("." + rest);
      SplitDotted(w[1..], rest);
      assert [w[0]] + w[1..] == w;
    }
  }

  /** A path of dot-free parts can be read back from its key. */
  lemma {:induction false} SplitUndoesJoinKey(path: seq<string>)
    requires path != [] && AllDotFree(path)
    ensures SplitKey(JoinKey(path)) == path
  {
    if |path| == 1 {
      SplitPlain(path[0]);
    } else {
      SplitDotted(path[0], JoinKey(path[1..]));
      SplitUndoesJoinKey(path[1..]);
    }
  }

  lemma {:induction false} JoinUndoesSplitKey(key: string)
    ensures JoinKey(SplitKey(key)) == key
    ensures AllDotFree(SplitKey(key))
  {
    if key != "" {
      var rest := SplitKey(key[1..]);
      JoinUndoesSplitKey(key[1..]);
      if key[0] == '.' {
        assert ([""] + rest)[1..] == rest;
      } else {
        assert ([[key[0]] + rest[0]] + rest[1..])[1..] == rest[1..];
        assert |rest| > 1 ==>
          [key[0]] + (rest[0] + ("." + JoinKey(rest[1..]))) == ([key[0]] + rest[0]) + ("." + JoinKey(rest[1..]));
      }
    }
  }

  // ---- leaves ----

  /** The value under a path through objects only, if it is not an object itself. */
  function LeafAt(v: Value, path: seq<string>): Option<Value>
    decreases |path|
  {
    if !v.Object? then (if path == [] then Some(v) else None)
    else if path == [] || path[0] !in v.fields then None
    else LeafAt(v.fields[path[0]], path[1..])
  }

  lemma {:induction false} LeafIsGot(v: Value, path: seq<string>)
    requires LeafAt(v, path).Some?
    ensures Lookup(v, path) == LeafAt(v, path)
    decreases |path|
  {
    if path != [] {
      LeafIsGot(v.fields[path[0]], path[1..]);
    }
  }

  /** Every key at every depth of the object structure is non-empty and free of dots. */
  predicate IsClean(v: Value) {
    v.Object? ==> forall k :: k in v.fields ==> k != "" && IsDotFree(k) && IsClean(v.fields[k])
  }

  /** No empty object at any depth. */
  predicate IsFull(v: Value) {
    v.Object? ==> v.fields != map[] && forall k :: k in v.fields ==> IsFull(v.fields[k])
  }

  lemma {:induction false} LeafPathIsClean(v: Value, path: seq<string>)
    requires IsClean(v) && LeafAt(v, path).Some?
    ensures NoneEmpty(path) && AllDotFree(path)
    decreases |path|
  {
    if path != [] {
      LeafPathIsClean(v.fields[path[0]], path[1..]);
      assert path == [path[0]] + path[1..];
    }
  }

  // ---- flattening ----

  /** What `value`, sitting under the path `pre`, contributes at a key. */
  function Contribution(value: Value, pre: seq<string>, key: string): Option<Value> {
    var parts := SplitKey(key);
    if pre <= parts then LeafAt(value, parts[|pre|..]) else None
  }

  function Entry(m: map<string, Value>, key: string): Option<Value> {
    if key in m then Some(m[key]) else None
  }

  /** The part of a key's path that follows `pre`, if it starts with `pre` and goes on. */
  predicate GoesOnWith(key: string, pre: seq<string>, parts: set<string>) {
    var all := SplitKey(key);
    pre < all && all[|pre|] in parts
  }

  /** `out` is `base` overwritten by what the children named in `done` contribute. */
  ghost predicate Overlays(out: map<string, Value>, base: map<string, Value>,
                           value: Value, pre: seq<string>, done: set<string>)
  {
    forall key :: Entry(out, key) ==
      if GoesOnWith(key, pre, done) && Contribution(value, pre, key).Some? then Contribution(value, pre, key)
      else Entry(base, key)
  }

  function Prefixed(prefix: string, key: string): string {
    if prefix == "" then key else prefix + "." + key
  }

  lemma {:induction false} JoinAppended(pre: seq<string>, k: string)
    requires NoneEmpty(pre)
    ensures JoinKey(pre + [k]) == Prefixed(JoinKey(pre), k)
  {
    if |pre| > 1 {
      JoinAppended(pre[1..], k);
      assert (pre + [k])[1..] == pre[1..] + [k];
      assert pre[1..][0] != "";
      assert JoinKey(pre[1..]) != "";
      assert pre[0] + ("." + (JoinKey(pre[1..]) + "." + k)) == (pre[0] + ("." + JoinKey(pre[1..]))) + "." + k;
    } else if |pre| == 1 {
      assert pre + [k] == [pre[0], k] && (pre + [k])[1..] == [k];
      assert pre[0] + ("." + k) == pre[0] + "." + k;
    }
  }

  lemma OverlayChild(out: map<string, Value>, out': map<string, Value>, base: map<string, Value>, value: Value,
                     pre: seq<string>, done: set<string>, k: string)
    requires value.Object? && k in value.fields && k !in done
    requires Overlays(out, base, value, pre, done)
    requires forall key ::
      Entry(out', key) ==
        if pre + [k] <= SplitKey(key) && Contribution(value.fields[k], pre + [k], key).Some?
        then Contribution(value.fields[k], pre + [k], key) else Entry(out, key)
    ensures Overlays(out', base, value, pre, done + {k})
  {
    forall key
      ensures Entry(out', key) ==
        if GoesOnWith(key, pre, done + {k}) && Contribution(value, pre, key).Some? then Contribution(value, pre, key)
        else Entry(base, key)
    {
      ContributionOfChild(value, pre, k, key);
      assert Entry(out, key) ==
        if GoesOnWith(key, pre, done) && Contribution(value, pre, key).Some? then Contribution(value, pre, key)
        else Entry(base, key);
    }
  }

  lemma ContributionOfChild(value: Value, pre: seq<string>, k: string, key: string)
    requires value.Object? && k in value.fields
    ensures pre + [k] <= SplitKey(key) <==> GoesOnWith(key, pre, {k})
    ensures GoesOnWith(key, pre, {k}) ==> Contribution(value, pre, key) == Contribution(value.fields[k], pre + [k], key)
  {
    var all := SplitKey(key);
    if GoesOnWith(key, pre, {k}) {
      assert all[|pre|..][1..] == all[|pre| + 1..];
      assert all[..|pre| + 1] == all[..|pre|] + [all[|pre|]];
    }
    if pre + [k] <= all {
      assert all[..|pre| + 1] == pre + [k];
      assert all[|pre|] == (pre + [k])[|pre|];
    }
  }

  lemma OverlayLeaf(out: map<string, Value>, leaf: Value, path: seq<string>, newKey: string, key: string)
    requires !leaf.Object? && SplitKey(newKey) == path
    ensures Entry(out[newKey := leaf], key) ==
      if path <= SplitKey(key) && Contribution(leaf, path, key).Some? then Contribution(leaf, path, key)
      else Entry(out, key)
  {
    var all := SplitKey(key);
    if path <= all {
      if all == path {
        JoinUndoesSplitKey(key);
        JoinUndoesSplitKey(newKey);
      } else {
        assert all[|path|..] != [];
      }
    }
  }

  lemma OverlayObject(out: map<string, Value>, out': map<string, Value>, child: Value, path: seq<string>, key: string)
    requires child.Object? && Overlays(out', out, child, path, child.fields.Keys)
    ensures Entry(out', key) ==
      if path <= SplitKey(key) && Contribution(child, path, key).Some? then Contribution(child, path, key)
      else Entry(out, key)
  {
    var all := SplitKey(key);
    if path <= all && all != path {
      assert all[|path|..][0] == all[|path|];
    }
    assert all == path ==> all[|path|..] == [];
  }

  /** The recursive visit; `pre` is the path that the prefix spells. */
  method Visit(value: Value, prefix: string, output: map<string, Value>, ghost pre: seq<string>)
    returns (out: map<string, Value>)
    ensures !value.Object? ==> out == output
    ensures value.Object? && IsClean(value) && NoneEmpty(pre) && AllDotFree(pre) && prefix == JoinKey(pre) ==>
      Overlays(out, output, value, pre, value.fields.Keys)
    decreases value
  {
    hide Overlays, Contribution, Prefixed, JoinKey, Entry;
    out := output;
    if value.Object? {
      ghost var wellKeyed := IsClean(value) && NoneEmpty(pre) && AllDotFree(pre) && prefix == JoinKey(pre);
      NothingOverlaid(output, value, pre);
      var rest := value.fields.Keys;
      assert rest - rest == {};
      while rest != {}
        invariant rest <= value.fields.Keys
        invariant wellKeyed ==> Overlays(out, output, value, pre, value.fields.Keys - rest)
        decreases rest
      {
        var k :| k in rest;
        var child := value.fields[k];
        var key := Prefixed(prefix, k);
        ghost var before, done := out, value.fields.Keys - rest;
        assert value.fields.Keys - (rest - {k}) == done + {k};
        if child.Object? {
          out := Visit(child, key, out, pre + [k]);
          if wellKeyed {
            JoinAppended(pre, k);
            forall q { OverlayObject(before, out, child, pre + [k], q); }
          }
        } else {
          out := out[key := child];
          if wellKeyed {
            JoinAppended(pre, k);
            SplitUndoesJoinKey(pre + [k]);
            forall q { OverlayLeaf(before, child, pre + [k], key, q); }
          }
        }
        if wellKeyed {
          OverlayChild(before, out, output, value, pre, done, k);
        }
        rest := rest - {k};
      }
      assert value.fields.Keys - {} == value.fields.Keys;
    }
  }

  lemma NothingOverlaid(base: map<string, Value>, value: Value, pre: seq<string>)
    ensures Overlays(base, base, value, pre, {})
  {
  }

  /**
   * The flat view. For an object whose keys are non-empty and dot-free it has one entry for every leaf, under the
   * key that splits into the leaf's path, and nothing else.
   */
  method Flattened(config: Value) returns (output: map<string, Value>)
    ensures !config.Object? ==> output == map[]
    ensures config.Object? && IsClean(config) ==>
      forall key :: Entry(output, key) == LeafAt(config, SplitKey(key))
  {
    output := Visit(config, "", map[], []);
    if config.Object? && IsClean(config) {
      forall key ensures Entry(output, key) == LeafAt(config, SplitKey(key)) {
        assert SplitKey(key)[0..] == SplitKey(key);
        assert Entry(output, key) ==
          if GoesOnWith(key, [], config.fields.Keys) && Contribution(config, [], key).Some?
          then Contribution(config, [], key)
          else None;
      }
    }
  }

  /** Distinct leaves have distinct keys, and each entry is what lookup finds. */
  lemma EntriesAgreeWithGet(config: Value, p: seq<string>, q: seq<string>)
    requires config.Object? && IsClean(config) && LeafAt(config, p).Some? && LeafAt(config, q).Some?
    ensures JoinKey(p) == JoinKey(q) ==> p == q
    ensures SplitKey(JoinKey(p)) == p && Lookup(config, SplitKey(JoinKey(p))) == LeafAt(config, p)
  {
    LeafPathIsClean(config, p);
    LeafPathIsClean(config, q);
    SplitUndoesJoinKey(p);
    SplitUndoesJoinKey(q);
    LeafIsGot(config, p);
  }

  // ---- rebuilding ----

  /** Every child object, at any depth, has something in it. */
  predicate HasFullChildren(v: Value) {
    v.Object? && forall k :: k in v.fields ==> IsFull(v.fields[k])
  }

  /** Sets all entries, one after the other. */
  function SetAll(tree: Value, entries: seq<(string, Value)>): Result<Value, ConfigError> {
    if entries == [] then Ok(tree)
    else
      var before := SetAll(tree, entries[..|entries| - 1]);
      var (key, value) := entries[|entries| - 1];
      if before.Err? then before else SetNested(before.value, SplitKey(key), value)
  }

  /** No leaf lies strictly above the path: everything on the way down is an object or absent. */
  ghost predicate OpenAbove(v: Value, path: seq<string>) {
    forall i :: 0 <= i < |path| ==> LeafAt(v, path[..i]).None?
  }

  lemma OpenBelow(v: Value, path: seq<string>)
    requires v.Object? && |path| > 1 && OpenAbove(v, path)
    ensures ChildToEnter(v, path[0]).Object? && OpenAbove(ChildToEnter(v, path[0]), path[1..])
    ensures path[0] in v.fields ==> ChildToEnter(v, path[0]) == v.fields[path[0]]
  {
    var child := ChildToEnter(v, path[0]);
    if path[0] in v.fields {
      assert path[..1][1..] == [] && path[..1][0] == path[0];
      assert LeafAt(v, path[..1]).None?;
    }
    forall i | 0 <= i < |path| - 1 ensures LeafAt(child, path[1..][..i]).None? {
      assert path[..i + 1][1..] == path[1..][..i] && path[..i + 1][0] == path[0];
      assert LeafAt(v, path[..i + 1]).None?;
    }
  }

  /** Setting one leaf below open ground adds that leaf, hides what lay below it, and leaves the others. */
  lemma {:induction false} SetLeaf(v: Value, path: seq<string>, x: Value, q: seq<string>)
    requires v.Object? && path != [] && !x.Object? && OpenAbove(v, path)
    ensures SetNested(v, path, x).Ok? && SetNested(v, path, x).value.Object?
    ensures LeafAt(SetNested(v, path, x).value, q) ==
      if q == path then Some(x) else if path <= q then None else LeafAt(v, q)
    decreases |path|
  {
    var k := path[0];
    if |path| == 1 {
      if q != [] && q[0] == k {
        assert path <= q && (q == path <==> q[1..] == []);
      }
    } else {
      OpenBelow(v, path);
      var child := ChildToEnter(v, k);
      if q != [] && q[0] == k {
        SetLeaf(child, path[1..], x, q[1..]);
        assert path == [k] + path[1..] && q == [k] + q[1..];
        assert path <= q <==> path[1..] <= q[1..];
      } else {
        SetLeaf(child, path[1..], x, []);
      }
    }
  }

  lemma {:induction false} SetLeafKeepsFull(v: Value, path: seq<string>, x: Value)
    requires HasFullChildren(v) && path != [] && !x.Object? && OpenAbove(v, path)
    ensures SetNested(v, path, x).Ok? && HasFullChildren(SetNested(v, path, x).value)
    ensures IsFull(SetNested(v, path, x).value)
    decreases |path|
  {
    if |path| > 1 {
      OpenBelow(v, path);
      SetLeafKeepsFull(ChildToEnter(v, path[0]), path[1..], x);
    }
    assert path[0] in SetNested(v, path, x).value.fields;
  }

  /** Full trees with the same leaves are the same tree. */
  lemma {:induction false} LeavesDetermineTree(a: Value, b: Value)
    requires IsFull(a) && IsFull(b)
    requires forall p :: LeafAt(a, p) == LeafAt(b, p)
    ensures a == b
    decreases a
  {
    assert LeafAt(a, []) == LeafAt(b, []);
    if a.Object? {
      SameChildren(a, b);
      forall k | k in a.fields ensures a.fields[k] == b.fields[k] {
        ChildLeaves(a, b, k);
        LeavesDetermineTree(a.fields[k], b.fields[k]);
      }
    }
  }

  lemma ChildLeaves(a: Value, b: Value, k: string)
    requires a.Object? && b.Object? && k in a.fields && k in b.fields
    requires forall p :: LeafAt(a, p) == LeafAt(b, p)
    ensures forall p :: LeafAt(a.fields[k], p) == LeafAt(b.fields[k], p)
  {
    forall p ensures LeafAt(a.fields[k], p) == LeafAt(b.fields[k], p) {
      assert ([k] + p)[1..] == p;
      assert LeafAt(a, [k] + p) == LeafAt(b, [k] + p);
    }
  }

  lemma SameChildren(a: Value, b: Value)
    requires a.Object? && b.Object? && HasFullChildren(a) && HasFullChildren(b)
    requires forall p :: LeafAt(a, p) == LeafAt(b, p)
    ensures a.fields.Keys == b.fields.Keys
  {
    forall k | k in a.fields ensures k in b.fields {
      var p := SomeLeaf(a.fields[k]);
      assert ([k] + p)[1..] == p;
      assert LeafAt(b, [k] + p).Some?;
    }
    forall k | k in b.fields ensures k in a.fields {
      var p := SomeLeaf(b.fields[k]);
      assert ([k] + p)[1..] == p;
      assert LeafAt(a, [k] + p) == LeafAt(b, [k] + p);
    }
  }

  lemma {:induction false} SomeLeaf(v: Value) returns (p: seq<string>)
    requires IsFull(v)
    ensures LeafAt(v, p).Some?
    decreases v
  {
    if v.Object? {
      var k :| k in v.fields;
      var q := SomeLeaf(v.fields[k]);
      p := [k] + q;
      assert p[1..] == q;
    } else {
      p := [];
    }
  }

  /** The tree so far has exactly those leaves of t whose keys were set. */
  ghost predicate HasJust(cur: Value, t: Value, entries: seq<(string, Value)>) {
    forall p :: LeafAt(cur, p) == if WasSet(entries, p) then LeafAt(t, p) else None
  }

  ghost predicate WasSet(entries: seq<(string, Value)>, p: seq<string>) {
    exists i :: 0 <= i < |entries| && SplitKey(entries[i].0) == p
  }

  ghost predicate AreEntriesOf(entries: seq<(string, Value)>, t: Value) {
    forall i :: 0 <= i < |entries| ==> LeafAt(t, SplitKey(entries[i].0)) == Some(entries[i].1)
  }

  lemma {:induction false} NoLeafAbove(v: Value, path: seq<string>, q: seq<string>)
    requires LeafAt(v, path).Some? && LeafAt(v, q).Some? && q <= path
    ensures q == path
    decreases |path|
  {
    if q != [] {
      NoLeafAbove(v.fields[path[0]], path[1..], q[1..]);
      assert q == [q[0]] + q[1..] && path == [path[0]] + path[1..];
    }
  }

  lemma {:induction false} LeafIsNoObject(v: Value, path: seq<string>)
    requires LeafAt(v, path).Some?
    ensures !LeafAt(v, path).value.Object?
    decreases |path|
  {
    if path != [] {
      LeafIsNoObject(v.fields[path[0]], path[1..]);
    }
  }

  lemma {:induction false} SetAllStep(t: Value, entries: seq<(string, Value)>)
    requires t.Object? && AreEntriesOf(entries, t)
    ensures SetAll(EMPTY, entries).Ok?
    ensures var cur := SetAll(EMPTY, entries).value; HasFullChildren(cur) && HasJust(cur, t, entries)
  {
    if entries != [] {
      var last := |entries| - 1;
      var front, path, x := entries[..last], SplitKey(entries[last].0), entries[last].1;
      SetAllStep(t, front);
      var cur := SetAll(EMPTY, front).value;
      LeafIsNoObject(t, path);
      OpenWhereLeaf(cur, t, front, path);
      SetLeafKeepsFull(cur, path, x);
      forall p ensures LeafAt(SetNested(cur, path, x).value, p) == if WasSet(entries, p) then LeafAt(t, p) else None {
        SetLeaf(cur, path, x, p);
        LastWasSet(entries, p);
        if path <= p && p != path && LeafAt(t, p).Some? {
          NoLeafAbove(t, p, path);
        }
        assert LeafAt(cur, p) == if WasSet(front, p) then LeafAt(t, p) else None;
      }
    }
  }

  lemma LastWasSet(entries: seq<(string, Value)>, p: seq<string>)
    requires entries != []
    ensures WasSet(entries, p) <==> WasSet(entries[..|entries| - 1], p) || p == SplitKey(entries[|entries| - 1].0)
  {
    var last := |entries| - 1;
    if i :| 0 <= i < |entries| && SplitKey(entries[i].0) == p && i < last {
      assert SplitKey(entries[..last][i].0) == p;
    }
    if WasSet(entries[..last], p) {
      var i :| 0 <= i < last && SplitKey(entries[..last][i].0) == p;
      assert SplitKey(entries[i].0) == p;
    }
  }

  lemma OpenWhereLeaf(cur: Value, t: Value, front: seq<(string, Value)>, path: seq<string>)
    requires HasJust(cur, t, front) && LeafAt(t, path).Some?
    ensures OpenAbove(cur, path)
  {
    forall i | 0 <= i < |path| ensures LeafAt(cur, path[..i]).None? {
      assert LeafAt(cur, path[..i]) == if WasSet(front, path[..i]) then LeafAt(t, path[..i]) else None;
      if LeafAt(t, path[..i]).Some? {
        NoLeafAbove(t, path, path[..i]);
      }
    }
  }

  /**
   * Setting the entries of the flat view of a tree with clean keys into an empty object, one by one and in any
   * order, never fails, and gives back the tree exactly when no object in it, other than itself, is empty.
   */
  lemma RebuildFromFlat(t: Value, flat: map<string, Value>, entries: seq<(string, Value)>)
    requires t.Object? && IsClean(t)
    requires forall key :: Entry(flat, key) == LeafAt(t, SplitKey(key))
    requires forall i :: 0 <= i < |entries| ==> Entry(flat, entries[i].0) == Some(entries[i].1)
    requires forall key :: key in flat ==> exists i :: 0 <= i < |entries| && entries[i].0 == key
    ensures SetAll(EMPTY, entries).Ok?
    ensures SetAll(EMPTY, entries) == Ok(t) <==> HasFullChildren(t)
  {
    forall i | 0 <= i < |entries| ensures LeafAt(t, SplitKey(entries[i].0)) == Some(entries[i].1) {
      assert Entry(flat, entries[i].0) == Some(entries[i].1);
    }
    SetAllStep(t, entries);
    var cur := SetAll(EMPTY, entries).value;
    forall p ensures LeafAt(cur, p) == LeafAt(t, p) {
      assert LeafAt(cur, p) == if WasSet(entries, p) then LeafAt(t, p) else None;
      if LeafAt(t, p).Some? {
        LeafWasSet(t, flat, entries, p);
      }
    }
    if HasFullChildren(t) {
      RootsAgree(cur, t);
    }
  }

  lemma LeafWasSet(t: Value, flat: map<string, Value>, entries: seq<(string, Value)>, p: seq<string>)
    requires t.Object? && IsClean(t) && LeafAt(t, p).Some?
    requires forall key :: Entry(flat, key) == LeafAt(t, SplitKey(key))
    requires forall key :: key in flat ==> exists i :: 0 <= i < |entries| && entries[i].0 == key
    ensures WasSet(entries, p)
  {
    LeafPathIsClean(t, p);
    SplitUndoesJoinKey(p);
    var key := JoinKey(p);
    assert Entry(flat, key).Some?;
    var i :| 0 <= i < |entries| && entries[i].0 == key;
  }

  lemma RootsAgree(a: Value, b: Value)
    requires HasFullChildren(a) && HasFullChildren(b)
    requires forall p :: LeafAt(a, p) == LeafAt(b, p)
    ensures a == b
  {
    SameChildren(a, b);
    forall k | k in a.fields ensures a.fields[k] == b.fields[k] {
      ChildLeaves(a, b, k);
      LeavesDetermineTree(a.fields[k], b.fields[k]);
    }
  }
}
