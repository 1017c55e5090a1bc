/** The configuration tree: lookup and update by dotted keys. */
module ConfigTree {
  import opened Options
  import opened Timestamps

  datatype Value = Null | Scalar(text: string) | Array(items: seq<Value>) | Object(fields: map<string, Value>) {
    predicate IsContainer() {
      Object? || Array?
    }
  }

  datatype ConfigError = InvalidKey | ArrayKeyMustBeIndex

  // ---- keys ----

  /** The parts between the dots; one more part than there are dots. */
  function SplitKey(key: string): (r: seq<string>)
    ensures r != []
  {
    if key == "" then [""]
    else
      var rest := SplitKey(key[1..]);
      if key[0] == '.' then [""] + rest else [[key[0]] + rest[0]] + rest[1..]
  }

  const USIZE_MAX: nat := 0xFFFF_FFFF_FFFF_FFFF

  /** An unsigned index: an optional plus sign and digits, within the machine word. */
  function ParseIndex(part: string): Option<nat> {
    var digits := if part != [] && part[0] == '+' then part[1..] else part;
    if digits == [] || !AllDigits(digits) || DigitsValue(digits) > USIZE_MAX then None
    else Some(DigitsValue(digits))
  }

  /** The part is the number n in decimal, with any zeros in front and perhaps a plus sign. */
  ghost predicate IsNumeral(part: string, n: nat) {
    exists zeros: nat ::
      part == Zeros(zeros) + Decimal(n) || part == "+" + (Zeros(zeros) + Decimal(n))
  }

  /** A part is an index exactly if it is a numeral of a machine word. */
  lemma IndexIff(part: string, n: nat)
    ensures ParseIndex(part) == Some(n) <==> IsNumeral(part, n) && n <= 18_446_744_073_709_551_615
  {
    if ParseIndex(part) == Some(n) {
      var digits := if part[0] == '+' then part[1..] else part;
      var zeros := DigitsAreDecimal(digits);
      assert part[0] == '+' ==> part == "+" + digits;
    }
    if IsNumeral(part, n) {
      var zeros: nat :| part == Zeros(zeros) + Decimal(n) || part == "+" + (Zeros(zeros) + Decimal(n));
      var digits := Zeros(zeros) + Decimal(n);
      DecimalReadsBack(n, zeros);
      DecimalIsDigits(n);
      assert IsDigit(digits[0]);
      assert ("+" + digits)[1..] == digits;
    }
  }

  // ---- lookup ----

  function Child(v: Value, part: string): Option<Value> {
    match v
    case Object(fields) => if part in fields then Some(fields[part]) else None
    case Array(items) =>
      var i := ParseIndex(part);
      if i.Some? && i.value < |items| then Some(items[i.value]) else None
    case _ => None
  }

  function Lookup(v: Value, parts: seq<string>): Option<Value> {
    if parts == [] then Some(v)
    else
      var c := Child(v, parts[0]);
      if c.None? then None else Lookup(c.value, parts[1..])
  }

  /** A part selects an object's field by its name and an array's item by its number, and nothing else. */
  ghost predicate Selects(v: Value, part: string, child: Value) {
    match v
    case Object(fields) => part in fields && child == fields[part]
    case Array(items) =>
      exists i: nat :: i < |items| && i < 0x1_0000_0000_0000_0000 && IsNumeral(part, i) && child == items[i]
    case _ => false
  }

  /** The parts lead from one value to the other, one selection after the other. */
  ghost predicate LeadsTo(v: Value, parts: seq<string>, target: Value)
    decreases |parts|
  {
    if parts == [] then target == v
    else exists child :: Selects(v, parts[0], child) && LeadsTo(child, parts[1..], target)
  }

  lemma ChildIffSelected(v: Value, part: string, child: Value)
    ensures Child(v, part) == Some(child) <==> Selects(v, part, child)
  {
    if v.Array? {
      forall i: nat ensures ParseIndex(part) == Some(i) <==> IsNumeral(part, i) && i < 0x1_0000_0000_0000_0000 {
        IndexIff(part, i);
      }
    }
  }

  lemma {:induction false} LookupIffLeads(v: Value, parts: seq<string>, target: Value)
    ensures Lookup(v, parts) == Some(target) <==> LeadsTo(v, parts, target)
    decreases |parts|
  {
    hide Child, Selects;
    if parts != [] {
      var c := Child(v, parts[0]);
      forall child ensures Child(v, parts[0]) == Some(child) <==> Selects(v, parts[0], child) {
        ChildIffSelected(v, parts[0], child);
      }
      if c.Some? {
        LookupIffLeads(c.value, parts[1..], target);
      }
    }
  }

  lemma {:induction false} LookupInParts(v: Value, p: seq<string>, q: seq<string>)
    ensures Lookup(v, p + q) == if Lookup(v, p).None? then None else Lookup(Lookup(v, p).value, q)
    decreases |p|
  {
    if p == [] {
      assert p + q == q;
    } else {
      assert (p + q)[1..] == p[1..] + q;
      var c := Child(v, p[0]);
      if c.Some? {
        LookupInParts(c.value, p[1..], q);
      }
    }
  }

  /** The walk with one cursor finds what the parts of the key lead to. */
  method Get(config: Value, key: string) returns (r: Option<Value>)
    ensures r == Lookup(config, SplitKey(key))
    ensures forall x :: r == Some(x) <==> LeadsTo(config, SplitKey(key), x)
  {
    forall x ensures Lookup(config, SplitKey(key)) == Some(x) <==> LeadsTo(config, SplitKey(key), x) {
      LookupIffLeads(config, SplitKey(key), x);
    }
    hide LeadsTo;
    var parts := SplitKey(key);
    var current := config;
    assert parts[0..] == parts;
    for k := 0 to |parts|
      invariant Lookup(config, parts) == Lookup(current, parts[k..])
    {
      assert parts[k..][1..] == parts[k + 1..];
      var child := Child(current, parts[k]);
      if child.None? {
        return None;
      }
      current := child.value;
    }
    assert parts[|parts|..] == [];
    r := Some(current);
  }

  // ---- update ----

  function PadTo(items: seq<Value>, n: nat): (r: seq<Value>)
    ensures |r| >= n && items <= r
    ensures forall i :: |items| <= i < |r| ==> r[i] == Null
  {
    if |items| < n then items + seq(n - |items|, _ => Null) else items
  }

  /** Puts a child into a container; anything else becomes an object that holds just it. */
  function WithChild(v: Value, part: string, child: Value): Result<Value, ConfigError> {
    match v
    case Object(fields) => Ok(Object(fields[part := child]))
    case Array(items) =>
      var i := ParseIndex(part);
      if i.None? then Err(ArrayKeyMustBeIndex)
      else Ok(Array(PadTo(items, i.value + 1)[i.value := child]))
    case _ => Ok(Object(map[part := child]))
  }

  const EMPTY: Value := Object(map[])

  /** The child to descend into: created, or emptied if it cannot have children. */
  function ChildToEnter(v: Value, part: string): Value {
    var c := Child(v, part);
    if c.Some? && c.value.IsContainer() then c.value else EMPTY
  }

  /** What the in-place update makes of the tree. */
  function SetNested(v: Value, parts: seq<string>, value: Value): Result<Value, ConfigError>
    decreases |parts|
  {
    if parts == [] then Ok(v)
    else if |parts| == 1 then WithChild(v, parts[0], value)
    else if v.Array? && ParseIndex(parts[0]).None? then Err(ArrayKeyMustBeIndex)
    else
      var inner := SetNested(ChildToEnter(v, parts[0]), parts[1..], value);
      if inner.Err? then inner else WithChild(v, parts[0], inner.value)
  }

  // ---- what one set makes of a container ----

  /** Setting an item changes that one item; the array is lengthened by nulls just so far that it has the item. */
  lemma SetItem(items: seq<Value>, part: string, i: nat, x: Value)
    requires IsNumeral(part, i) && i < 0x1_0000_0000_0000_0000
    ensures var r := SetNested(Array(items), [part], x);
      && r.Ok? && r.value.Array?
      && var after := r.value.items;
         && |after| == (if i < |items| then |items| else i + 1)
         && forall k :: 0 <= k < |after| ==>
              after[k] == if k == i then x else if k < |items| then items[k] else Null
  {
    IndexIff(part, i);
  }

  /** Setting a field changes that one field; what is no container becomes an object with just that field. */
  lemma SetField(v: Value, name: string, x: Value)
    requires !v.Array?
    ensures var r := SetNested(v, [name], x);
      && r.Ok? && r.value.Object?
      && (forall k :: k in r.value.fields <==> k == name || (v.Object? && k in v.fields))
      && (forall k :: k in r.value.fields ==> r.value.fields[k] == if k == name then x else v.fields[k])
  {
  }

  /** Everything on the way to what was set: arrays that were there stay arrays, anything else is an object. */
  lemma {:induction false} WayIsOfContainers(v: Value, parts: seq<string>, x: Value, i: nat)
    requires SetNested(v, parts, x).Ok? && i < |parts|
    ensures var on := Lookup(SetNested(v, parts, x).value, parts[..i]);
      && on.Some? && on.value.IsContainer()
      && (on.value.Array? <==> Lookup(v, parts[..i]).Some? && Lookup(v, parts[..i]).value.Array?)
    decreases |parts|
  {
    if i == 0 {
      SetContainers(v, parts, x);
    } else {
      var child := ChildToEnter(v, parts[0]);
      var inner := SetNested(child, parts[1..], x).value;
      var path := parts[..i];
      ChildAfterWithChild(v, parts[0], inner);
      WayIsOfContainers(child, parts[1..], x, i - 1);
      assert path[1..] == parts[1..][..i - 1] && path[0] == parts[0];
      if i > 1 {
        assert Child(EMPTY, path[1]).None?;
      }
    }
  }

  // ---- the lens laws ----

  lemma ChildAfterWithChild(v: Value, part: string, child: Value)
    requires WithChild(v, part, child).Ok?
    ensures Child(WithChild(v, part, child).value, part) == Some(child)
    ensures WithChild(v, part, child).value.IsContainer()
  {
  }

  /** What was set is what is got. */
  lemma {:induction false} GetAfterSet(v: Value, parts: seq<string>, x: Value)
    requires parts != [] && SetNested(v, parts, x).Ok?
    ensures Lookup(SetNested(v, parts, x).value, parts) == Some(x)
    decreases |parts|
  {
    if |parts| == 1 {
      ChildAfterWithChild(v, parts[0], x);
    } else {
      var inner := SetNested(ChildToEnter(v, parts[0]), parts[1..], x);
      GetAfterSet(ChildToEnter(v, parts[0]), parts[1..], x);
      ChildAfterWithChild(v, parts[0], inner.value);
    }
  }

  lemma SetContainers(v: Value, parts: seq<string>, x: Value)
    requires parts != [] && SetNested(v, parts, x).Ok?
    ensures SetNested(v, parts, x).value.IsContainer()
  {
    if |parts| == 1 {
      ChildAfterWithChild(v, parts[0], x);
    } else {
      ChildAfterWithChild(v, parts[0], SetNested(ChildToEnter(v, parts[0]), parts[1..], x).value);
    }
  }

  lemma WithSameChild(v: Value, part: string)
    requires Child(v, part).Some?
    ensures WithChild(v, part, Child(v, part).value) == Ok(v)
  {
    if v.Array? {
      var i := ParseIndex(part).value;
      assert v.items[i := v.items[i]] == v.items;
    } else {
      assert v.fields[part := v.fields[part]] == v.fields;
    }
  }

  /** Setting back what was got changes nothing. */
  lemma {:induction false} SetAfterGet(v: Value, parts: seq<string>)
    requires parts != [] && Lookup(v, parts).Some?
    ensures SetNested(v, parts, Lookup(v, parts).value) == Ok(v)
    decreases |parts|
  {
    WithSameChild(v, parts[0]);
    if |parts| > 1 {
      SetAfterGet(Child(v, parts[0]).value, parts[1..]);
    }
  }

  lemma WithChildTwice(v: Value, part: string, x: Value, y: Value)
    requires WithChild(v, part, x).Ok?
    ensures WithChild(WithChild(v, part, x).value, part, y) == WithChild(v, part, y)
  {
    match v
    case Object(fields) =>
      assert fields[part := x][part := y] == fields[part := y];
    case Array(items) =>
      var i := ParseIndex(part).value;
      var padded := PadTo(items, i + 1);
      assert padded[i := x][i := y] == padded[i := y];
    case _ =>
      assert map[part := x][part := y] == map[part := y];
  }

  /** A second set to the same key wins outright. */
  lemma {:induction false} SetAfterSet(v: Value, parts: seq<string>, x: Value, y: Value)
    requires parts != [] && SetNested(v, parts, x).Ok?
    ensures SetNested(SetNested(v, parts, x).value, parts, y) == SetNested(v, parts, y)
    decreases |parts|
  {
    if |parts| == 1 {
      WithChildTwice(v, parts[0], x, y);
    } else {
      var child := ChildToEnter(v, parts[0]);
      var inner := SetNested(child, parts[1..], x).value;
      SetAfterSet(child, parts[1..], x, y);
      SetContainers(child, parts[1..], x);
      ChildAfterWithChild(v, parts[0], inner);
      SetNeverFailsTwice(child, parts[1..], x, y);
      WithChildTwice(v, parts[0], inner, SetNested(child, parts[1..], y).value);
    }
  }

  /** Whether a set fails does not depend on the value. */
  lemma {:induction false} SetNeverFailsTwice(v: Value, parts: seq<string>, x: Value, y: Value)
    ensures SetNested(v, parts, x).Err? <==> SetNested(v, parts, y).Err?
    decreases |parts|
  {
    if |parts| > 1 {
      SetNeverFailsTwice(ChildToEnter(v, parts[0]), parts[1..], x, y);
    }
  }

  /** Two parts that select the same child: by number in an array, by name elsewhere. */
  predicate SameSlot(v: Value, p: string, q: string) {
    if v.Array? then ParseIndex(p).Some? && ParseIndex(p) == ParseIndex(q) else p == q
  }

  /** Somewhere along the way the two paths select different children. */
  predicate Diverges(v: Value, p: seq<string>, q: seq<string>)
    decreases |p|
  {
    p != [] && q != [] && (!SameSlot(v, p[0], q[0]) || Diverges(ChildToEnter(v, p[0]), p[1..], q[1..]))
  }

  lemma OtherChild(v: Value, p: string, q: string, child: Value)
    requires WithChild(v, p, child).Ok? && !SameSlot(v, p, q)
    ensures var after := Child(WithChild(v, p, child).value, q);
      after == Child(v, q) || (Child(v, q).None? && after == Some(Null))
  {
  }

  lemma EnteredLookup(v: Value, p: string, q: string, rest: seq<string>)
    requires SameSlot(v, p, q) && rest != []
    ensures Lookup(v, [q] + rest) == Lookup(ChildToEnter(v, p), rest)
    ensures ChildToEnter(v, p) == ChildToEnter(v, q)
  {
    assert ([q] + rest)[1..] == rest;
  }

  /**
   * A set leaves every diverging path as it was, present or absent; the one thing that can appear is the null
   * that pads a lengthened array.
   */
  lemma {:induction false} SetKeepsTheRest(v: Value, p: seq<string>, q: seq<string>, x: Value)
    requires SetNested(v, p, x).Ok? && Diverges(v, p, q)
    ensures var after := Lookup(SetNested(v, p, x).value, q);
      after == Lookup(v, q) || (Lookup(v, q).None? && after == Some(Null))
    decreases |p|
  {
    var child := if |p| == 1 then x else SetNested(ChildToEnter(v, p[0]), p[1..], x).value;
    if SameSlot(v, p[0], q[0]) {
      SetKeepsTheRest(ChildToEnter(v, p[0]), p[1..], q[1..], x);
      assert q == [q[0]] + q[1..];
      EnteredLookup(v, p[0], q[0], q[1..]);
      SlotAfter(v, p[0], q[0], child);
    } else {
      OtherChild(v, p[0], q[0], child);
      assert Lookup(Null, q[1..]) == if q[1..] == [] then Some(Null) else None;
    }
  }

  lemma SlotAfter(v: Value, p: string, q: string, child: Value)
    requires WithChild(v, p, child).Ok? && SameSlot(v, p, q)
    ensures Child(WithChild(v, p, child).value, q) == Some(child)
  {
    ChildAfterWithChild(v, p, child);
  }

  /** A set fails exactly where the path meets an existing array with a part that is no index. */
  ghost predicate BlockedAt(v: Value, parts: seq<string>, i: nat) {
    i < |parts| && ParseIndex(parts[i]).None? && Lookup(v, parts[..i]).Some? && Lookup(v, parts[..i]).value.Array?
  }

  ghost predicate IsBlocked(v: Value, parts: seq<string>) {
    exists i: nat :: BlockedAt(v, parts, i)
  }

  lemma {:induction false} SetFailsIff(v: Value, parts: seq<string>, x: Value)
    ensures SetNested(v, parts, x).Err? <==> IsBlocked(v, parts)
    decreases |parts|
  {
    if parts != [] {
      assert parts[..0] == [];
      assert v.Array? && ParseIndex(parts[0]).None? ==> BlockedAt(v, parts, 0);
      var child := ChildToEnter(v, parts[0]);
      if |parts| > 1 {
        SetFailsIff(child, parts[1..], x);
      }
      if i: nat :| BlockedAt(child, parts[1..], i) {
        BlockedBelow(v, parts, i + 1);
      }
      if i: nat :| BlockedAt(v, parts, i) && i > 0 {
        BlockedBelow(v, parts, i);
      }
    }
  }

  lemma BlockedBelow(v: Value, parts: seq<string>, i: nat)
    requires parts != [] && 0 < i
    ensures BlockedAt(v, parts, i) <==> BlockedAt(ChildToEnter(v, parts[0]), parts[1..], i - 1)
  {
    if i < |parts| {
      var path, rest := parts[..i], parts[1..][..i - 1];
      assert path[1..] == rest && path[0] == parts[0];
      var c := Child(v, parts[0]);
      assert Lookup(v, path) == if c.None? then None else Lookup(c.value, rest);
      if rest != [] {
        assert Child(EMPTY, rest[0]).None?;
      }
    }
  }

  // ---- the stored configuration ----

  predicate IsValidKey(key: string) {
    key != "" && forall part :: part in SplitKey(key) ==> part != ""
  }

  predicate HasDoubleDot(key: string) {
    exists i :: 0 <= i < |key| - 1 && key[i] == '.' && key[i + 1] == '.'
  }

  /** A key is valid if it is not empty and no dot stands at an end or beside another dot. */
  lemma ValidKeyIff(key: string)
    ensures IsValidKey(key) <==>
      key != "" && key[0] != '.' && key[|key| - 1] != '.' && !HasDoubleDot(key)
  {
    if key != "" {
      PartsFilledIff(key);
      NoneBlankMembers(SplitKey(key));
    }
  }

  ghost predicate NoneBlank(parts: seq<string>) {
    forall i :: 0 <= i < |parts| ==> parts[i] != ""
  }

  lemma NoneBlankMembers(parts: seq<string>)
    ensures NoneBlank(parts) <==> forall part :: part in parts ==> part != ""
    ensures parts != [] ==> (NoneBlank(parts) <==> parts[0] != "" && NoneBlank(parts[1..]))
  {
    if NoneBlank(parts) {
      forall part | part in parts ensures part != "" {
        var i :| 0 <= i < |parts| && parts[i] == part;
      }
    }
    assert forall i :: 0 <= i < |parts| ==> parts[i] in parts;
    if parts != [] && parts[0] != "" && NoneBlank(parts[1..]) {
      forall i | 0 < i < |parts| ensures parts[i] != "" {
        assert parts[i] == parts[1..][i - 1];
      }
    }
  }

  lemma DoubleDotFront(key: string)
    requires |key| > 1
    ensures HasDoubleDot(key) <==> (key[0] == '.' && key[1] == '.') || HasDoubleDot(key[1..])
  {
    var tail := key[1..];
    if i :| 0 < i < |key| - 1 && key[i] == '.' && key[i + 1] == '.' {
      assert tail[i - 1] == '.' && tail[i - 1 + 1] == '.';
    }
    if i :| 0 <= i < |tail| - 1 && tail[i] == '.' && tail[i + 1] == '.' {
      assert key[i + 1] == '.' && key[i + 1 + 1] == '.';
    }
  }

  lemma {:induction false} PartsFilledIff(key: string)
    requires key != ""
    ensures NoneBlank(SplitKey(key)[1..]) <==> key[|key| - 1] != '.' && !HasDoubleDot(key)
    ensures SplitKey(key)[0] == "" <==> key[0] == '.'
  {
    hide HasDoubleDot, NoneBlank;
    if |key| > 1 {
      PartsFilledIff(key[1..]);
      DoubleDotFront(key);
      var rest := SplitKey(key[1..]);
      NoneBlankMembers(rest);
      assert key[0] == '.' ==> SplitKey(key)[1..] == rest;
      assert key[0] != '.' ==> SplitKey(key)[1..] == rest[1..];
    } else {
      OneCharacterKey(key);
    }
  }

  lemma OneCharacterKey(key: string)
    requires |key| == 1
    ensures !HasDoubleDot(key)
    ensures NoneBlank(SplitKey(key)[1..]) <==> key[0] != '.'
  {
    assert key[1..] == "" && SplitKey("") == [""];
    assert SplitKey(key)[1..] == if key[0] == '.' then [""] else [];
  }

  datatype SetError = BadKey | NotAnIndex | WriteFailed

  class ConfigFile {
    const defaults: Value
    /** The parsed file; none if it is missing or unreadable. */
    var stored: Option<Value>

    constructor (defaults: Value)
      ensures this.defaults == defaults && stored == None
    {
      this.defaults := defaults;
      stored := None;
    }

    function Load(): Value
      reads this
    {
      if stored.Some? then stored.value else defaults
    }

    /** Loads, updates and writes back; `writable` says whether the file system accepts the write. */
    method Set(key: string, value: Value, writable: bool) returns (r: Result<(), SetError>)
      modifies this
      ensures r.Err? ==> stored == old(stored)
      ensures r == Err(BadKey) <==> !IsValidKey(key)
      ensures r == Err(NotAnIndex) <==> IsValidKey(key) && IsBlocked(old(Load()), SplitKey(key))
      ensures r == Err(WriteFailed) <==> IsValidKey(key) && !IsBlocked(old(Load()), SplitKey(key)) && !writable
      ensures r.Ok? ==> stored.Some? && SetNested(old(Load()), SplitKey(key), value) == Ok(stored.value)
      ensures r.Ok? ==> Lookup(Load(), SplitKey(key)) == Some(value)
    {
      if !IsValidKey(key) {
        return Err(BadKey);
      }
      var config := Load();
      var parts := SplitKey(key);
      SetFailsIff(config, parts, value);
      var updated := SetNested(config, parts, value);
      if updated.Err? {
        return Err(NotAnIndex);
      }
      if !writable {
        return Err(WriteFailed);
      }
      GetAfterSet(config, parts, value);
      stored := Some(updated.value);
      r := Ok(());
    }
  }
}
