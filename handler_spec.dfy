/** The value-level behaviour of src/PlaceholderHandler.php: what each `add*`
    method stores, the dot-path lookup on objects, the mapping walk of
    `addFromContext`, and the two renderers `replace` and
    `replaceWithModifiers`. The methods of the handler class are proved
    against these functions. */
module HandlerSpec {
  import opened Values
  import opened PhpString
  import opened PhpArray
  import opened Contracts
  import opened TokenScanner
  import UpperFormatter

  /** What the context registry holds under a name: a bare mapping array
      (`registerContextMapping`) or a context object (`registerContext`). */
  datatype ContextEntry = MappingEntry(mapping: PArray<Rule>) | InstanceEntry(plugin: ContextPlugin)

  // ---------------------------------------------------------------- add

  /** `$value ?? $fallback ?? $this->fallback`: never null, and the first
      non-null of the value, the call's fallback and the handler's one. */
  function Stored(value: Value, fb: Value, fallback: string): (r: Value)
    ensures r != VNull
    ensures value != VNull ==> r == value
    ensures value == VNull && fb != VNull ==> r == fb
    ensures value == VNull && fb == VNull ==> r == VStr(fallback)
  {
    Coalesce(value, Coalesce(fb, VStr(fallback)))
  }

  /** `$this->placeholders[$k] ?? null`. */
  function Lookup(ph: PArray<Value>, k: string): (r: Value)
    ensures r != VNull ==> k in ph.entries && ph.entries[k] == r
    ensures k !in ph.entries ==> r == VNull
  {
    if k in ph.entries then ph.entries[k] else VNull
  }

  /** A call of the closure that `registerFormatter` stores: the handler's
      fallback as it is at the time of the call when the formatter's guard
      rejects the value, otherwise what the formatter makes of it. Only the
      formatter itself can throw, and what comes back is always a string. */
  function Apply(p: FormatterPlugin, fallback: string, value: Value, args: seq<Value>): (r: Outcome<Value>)
    ensures r.Done? ==> r.value.VStr?
    ensures !p.canFormat(value) ==> r == Done(VStr(fallback))
    ensures r.Threw? <==> p.canFormat(value) && p.format(value, args).Threw?
  {
    if !p.canFormat(value) then Done(VStr(fallback))
    else match p.format(value, args)
      case Done(s) => Done(VStr(s))
      case Threw => Threw
  }

  /** The value `addDate` stores. A null date, or a date formatter that
      throws, stores the call's fallback or else the handler's. */
  function DateValue(fm: map<string, FormatterPlugin>, fallback: string, date: Value, format: string, fb: Value): (r: Value)
    requires "date" in fm
    ensures r != VNull
    ensures date == VNull ==> r == Stored(fb, VNull, fallback)
  {
    if date == VNull then Stored(Coalesce(fb, VStr(fallback)), VNull, fallback)
    else match Apply(fm["date"], fallback, date, [VStr(format)])
      case Done(v) => Stored(v, VNull, fallback)
      case Threw => Stored(Coalesce(fb, VStr(fallback)), VNull, fallback)
  }

  /** The call's own fallback is not used when the date formatter's guard
      rejects the date: its wrapper answers with the handler's fallback. */
  lemma DateRejectedGivesHandlerFallback(fm: map<string, FormatterPlugin>, fallback: string, date: Value, format: string, fb: Value)
    requires "date" in fm && date != VNull && !fm["date"].canFormat(date)
    ensures DateValue(fm, fallback, date, format, fb) == VStr(fallback)
  {
  }

  /** A date formatter that throws stores the call's fallback, or else the
      handler's, as for a null date. */
  lemma DateThrowGivesFallback(fm: map<string, FormatterPlugin>, fallback: string, date: Value, format: string, fb: Value)
    requires "date" in fm && date != VNull && Apply(fm["date"], fallback, date, [VStr(format)]).Threw?
    ensures DateValue(fm, fallback, date, format, fb) == Stored(fb, VNull, fallback)
  {
  }

  /** `$value !== null && $value !== ''`. */
  predicate Present(v: Value)
  {
    v != VNull && v != VStr("")
  }

  /** The value `addNullable` stores. */
  function Nullable(values: seq<Value>, fallback: string): (r: Value)
    ensures r != VNull
    decreases |values|
  {
    if values == [] then VStr(fallback)
    else if Present(values[0]) then values[0]
    else Nullable(values[1..], fallback)
  }

  /** `addNullable` stores the first present value, none before it being
      present; with no present value it stores the handler's fallback. */
  lemma {:induction false} NullableChoice(values: seq<Value>, fallback: string)
    ensures var r := Nullable(values, fallback);
      || (exists i :: 0 <= i < |values| && r == values[i] && Present(values[i])
            && forall j :: 0 <= j < i ==> !Present(values[j]))
      || (r == VStr(fallback) && forall j :: 0 <= j < |values| ==> !Present(values[j]))
    decreases |values|
  {
    if values != [] && !Present(values[0]) {
      NullableChoice(values[1..], fallback);
      var r := Nullable(values, fallback);
      if exists i :: 0 <= i < |values[1..]| && r == values[1..][i] && Present(values[1..][i])
          && forall j :: 0 <= j < i ==> !Present(values[1..][j]) {
        var i :| 0 <= i < |values[1..]| && r == values[1..][i] && Present(values[1..][i])
          && forall j :: 0 <= j < i ==> !Present(values[1..][j]);
        assert r == values[i + 1];
        forall j | 0 <= j < i + 1 ensures !Present(values[j]) {
          if j > 0 { assert values[j] == values[1..][j - 1]; }
        }
      } else {
        forall j | 0 <= j < |values| ensures !Present(values[j]) {
          if j > 0 { assert values[j] == values[1..][j - 1]; }
        }
      }
    }
  }

  /** The store after `addMany`: every entry goes through `add`, in order. */
  function Many(ph: PArray<Value>, ks: seq<string>, vals: map<string, Value>, fallback: string): PArray<Value>
    requires forall k :: k in ks ==> k in vals
    decreases |ks|
  {
    if ks == [] then ph
    else
      var k := ks[|ks| - 1];
      Put(Many(ph, ks[..|ks| - 1], vals, fallback), k, Stored(vals[k], VNull, fallback))
  }

  /** One more key of the list goes through `add`. */
  lemma ManyStep(ph: PArray<Value>, ks: seq<string>, vals: map<string, Value>, fallback: string, i: nat)
    requires i < |ks| && forall k :: k in ks ==> k in vals
    ensures forall k :: k in ks[..i] ==> k in vals
    ensures Many(ph, ks[..i + 1], vals, fallback)
         == Put(Many(ph, ks[..i], vals, fallback), ks[i], Stored(vals[ks[i]], VNull, fallback))
  {
    assert ks[..i + 1][..i] == ks[..i];
  }

  /** After `addMany` a given key holds its value (the fallback for a
      null), and any other key is as it was. */
  lemma {:induction false} ManyEntry(ph: PArray<Value>, ks: seq<string>, vals: map<string, Value>, fallback: string, k: string)
    requires forall k :: k in ks ==> k in vals
    ensures var r := Many(ph, ks, vals, fallback);
      && (k in ks ==> k in r.entries && r.entries[k] == Stored(vals[k], VNull, fallback))
      && (k !in ks ==> (k in r.entries <==> k in ph.entries))
      && (k !in ks && k in ph.entries ==> r.entries[k] == ph.entries[k])
    decreases |ks|
  {
    if ks != [] {
      var n := |ks| - 1;
      var front := ks[..n];
      assert ks == front + [ks[n]];
      assert forall j :: j in front ==> j in ks;
      ManyEntry(ph, front, vals, fallback, k);
    }
  }

  /** The value `addLazy` stores: the callback's result through `add` with
      the call's fallback, or that fallback (else the handler's) when the
      callback throws. */
  function LazyValue(outcome: Outcome<Value>, fb: Value, fallback: string): (r: Value)
    ensures r != VNull
    ensures outcome.Threw? ==> r == Stored(VNull, fb, fallback)
  {
    match outcome
    case Done(v) => Stored(v, fb, fallback)
    case Threw => Stored(Coalesce(fb, VStr(fallback)), VNull, fallback)
  }

  /** The value `addIf` stores. A null value chosen by a true condition
      falls back to the handler's fallback, as every null given to `add`. */
  function Conditional(cond: bool, value: Value, elseValue: Value, fallback: string): (r: Value)
    ensures r != VNull
    ensures cond ==> r == Stored(value, VNull, fallback)
    ensures !cond ==> r == Stored(elseValue, VNull, fallback)
  {
    Stored(if cond then value else Coalesce(elseValue, VStr(fallback)), VNull, fallback)
  }

  /** The value `addFormatted` stores. With no formatter of that name it is
      `add($key, $value)`; a formatter that throws stores the handler's
      fallback; otherwise what the formatter's wrapper returns. */
  function FormattedValue(fm: map<string, FormatterPlugin>, fallback: string, value: Value, name: string, args: seq<Value>): (r: Value)
    ensures r != VNull
    ensures name !in fm ==> r == Stored(value, VNull, fallback)
    ensures name in fm ==> r.VStr?
    ensures name in fm && Apply(fm[name], fallback, value, args).Threw? ==> r == VStr(fallback)
  {
    if name !in fm then Stored(value, VNull, fallback)
    else match Apply(fm[name], fallback, value, args)
      case Done(v) => Stored(v, VNull, fallback)
      case Threw => VStr(fallback)
  }

  // ---------------------------------------------------------------- objects

  /** The loop of `getObjectValue` over the parts of a dotted path: each
      step needs an object with that property set, or the result is null. */
  function Walk(v: Value, parts: seq<string>): Value
    decreases |parts|
  {
    if parts == [] then v
    else if v.VObj? && Isset(v, parts[0]) then Walk(Prop(v, parts[0]), parts[1..])
    else VNull
  }

  /** `getObjectValue`: a plain property, or a walk along a dotted path. */
  function ObjectValue(obj: Value, property: string): Value
  {
    if '.' !in property then Prop(obj, property)
    else Walk(obj, Explode(".", property))
  }

  /** Walking a path in two pieces is walking it whole; a failed first part
      stays null. */
  lemma {:induction false} WalkAppend(v: Value, a: seq<string>, b: seq<string>)
    ensures Walk(v, a + b) == Walk(Walk(v, a), b)
    decreases |a|
  {
    if a == [] {
      assert a + b == b;
    } else {
      assert (a + b)[0] == a[0];
      assert (a + b)[1..] == a[1..] + b;
      if v.VObj? && Isset(v, a[0]) {
        WalkAppend(Prop(v, a[0]), a[1..], b);
      } else {
        WalkNull(b);
      }
    }
  }

  lemma {:induction false} WalkNull(b: seq<string>)
    ensures Walk(VNull, b) == VNull
  {
  }

  /** The shortcut for a property without a dot agrees with the general
      walk: `getObjectValue` is the walk along `explode('.', $property)`. */
  lemma ObjectValueIsWalk(obj: Value, property: string)
    ensures ObjectValue(obj, property) == Walk(obj, Explode(".", property))
  {
    if '.' !in property {
      ExplodeAbsent('.', property);
      assert Explode(".", property)[1..] == [];
    }
  }

  /** A two-part path reads a property of a property. */
  lemma TwoPartPath(obj: Value, a: string, b: string)
    requires '.' !in a && '.' !in b
    ensures ObjectValue(obj, a + "." + b) == Prop(Prop(obj, a), b)
  {
    var p := a + "." + b;
    assert p[|a|] == '.';
    ExplodeSplit('.', a, b);
    ExplodeAbsent('.', b);
    assert Explode(".", p) == [a] + [b];
    WalkAppend(obj, [a], [b]);
    assert [a][1..] == [] && [b][1..] == [];
  }

  // ---------------------------------------------------------------- contexts

  /** PHP's truthiness of a string: neither `""` nor `"0"`. */
  predicate Truthy(s: string)
    ensures Truthy(s) <==> !IsEmpty(VStr(s))
  {
    s != "" && s != "0"
  }

  /** `$prefix ? "{$prefix}.{$key}" : $key`. */
  function PlaceholderKey(prefix: string, key: string): string
  {
    if Truthy(prefix) then prefix + "." + key else key
  }

  /** The mapping key ends its placeholder key, which is the key itself
      when the prefix is falsy. */
  lemma PlaceholderKeySuffix(prefix: string, key: string)
    ensures var r := PlaceholderKey(prefix, key);
      |key| <= |r| && r[|r| - |key|..] == key
    ensures !Truthy(prefix) ==> PlaceholderKey(prefix, key) == key
  {
    if Truthy(prefix) {
      assert (prefix + "." + key)[|prefix| + 1..] == key;
    }
  }

  /** Different mapping keys give different placeholder keys. */
  lemma PlaceholderKeyInjective(prefix: string, a: string, b: string)
    requires PlaceholderKey(prefix, a) == PlaceholderKey(prefix, b)
    ensures a == b
  {
    if Truthy(prefix) {
      assert (prefix + "." + a)[|prefix| + 1..] == a;
      assert (prefix + "." + b)[|prefix| + 1..] == b;
    }
  }

  /** What `addFromContext` stores for one mapping entry. */
  function EntryValue(fm: map<string, FormatterPlugin>, fallback: string, obj: Value, key: string, rule: Rule): (r: Value)
    ensures r != VNull
  {
    match rule
    case PathRule(path) => Stored(ObjectValue(obj, path), VNull, fallback)
    case ConfigRule(property, formatter) =>
      var v := ObjectValue(obj, if property.Some? then property.value else key);
      if formatter.Some? then FormattedValue(fm, fallback, v, formatter.value, [])
      else Stored(v, VNull, fallback)
    case ClosureRule(extract) => LazyValue(extract(obj), VNull, fallback)
  }

  /** The store after `addFromContext` has gone through the keys `ks`. */
  function FromContext(ph: PArray<Value>, fm: map<string, FormatterPlugin>, fallback: string,
                       prefix: string, obj: Value, ks: seq<string>, rules: map<string, Rule>): PArray<Value>
    requires forall k :: k in ks ==> k in rules
    decreases |ks|
  {
    if ks == [] then ph
    else
      var k := ks[|ks| - 1];
      Put(FromContext(ph, fm, fallback, prefix, obj, ks[..|ks| - 1], rules),
          PlaceholderKey(prefix, k), EntryValue(fm, fallback, obj, k, rules[k]))
  }

  /** The placeholder keys a mapping produces, in mapping order. */
  function PrefixedKeys(prefix: string, ks: seq<string>): (r: seq<string>)
    ensures |r| == |ks|
    ensures forall i :: 0 <= i < |ks| ==> r[i] == PlaceholderKey(prefix, ks[i])
    decreases |ks|
  {
    if ks == [] then [] else PrefixedKeys(prefix, ks[..|ks| - 1]) + [PlaceholderKey(prefix, ks[|ks| - 1])]
  }

  /** `addFromContext` adds exactly the placeholder keys its mapping
      produces; a placeholder under any other key is left as it was. */
  lemma {:induction false} FromContextOther(ph: PArray<Value>, fm: map<string, FormatterPlugin>, fallback: string,
                                            prefix: string, obj: Value, ks: seq<string>, rules: map<string, Rule>, k: string)
    requires forall k :: k in ks ==> k in rules
    ensures var r := FromContext(ph, fm, fallback, prefix, obj, ks, rules);
      && (k in r.entries <==> k in ph.entries || k in PrefixedKeys(prefix, ks))
      && (k !in PrefixedKeys(prefix, ks) && k in ph.entries ==> r.entries[k] == ph.entries[k])
    decreases |ks|
  {
    if ks != [] {
      var n := |ks| - 1;
      var front := ks[..n];
      assert forall j :: j in front ==> j in ks;
      FromContextOther(ph, fm, fallback, prefix, obj, front, rules, k);
      assert PrefixedKeys(prefix, ks) == PrefixedKeys(prefix, front) + [PlaceholderKey(prefix, ks[n])];
    }
  }

  /** Each mapping key's placeholder holds that entry's value: with
      distinct mapping keys no later entry overwrites an earlier one. */
  lemma {:induction false} FromContextValue(ph: PArray<Value>, fm: map<string, FormatterPlugin>, fallback: string,
                                            prefix: string, obj: Value, ks: seq<string>, rules: map<string, Rule>, j: nat)
    requires forall k :: k in ks ==> k in rules
    requires Distinct(ks) && j < |ks|
    ensures var r := FromContext(ph, fm, fallback, prefix, obj, ks, rules);
      && PlaceholderKey(prefix, ks[j]) in r.entries
      && r.entries[PlaceholderKey(prefix, ks[j])] == EntryValue(fm, fallback, obj, ks[j], rules[ks[j]])
    decreases |ks|
  {
    var n := |ks| - 1;
    if j < n {
      var front := ks[..n];
      assert forall k :: k in front ==> k in ks;
      DistinctFront(ks);
      FromContextValue(ph, fm, fallback, prefix, obj, front, rules, j);
      assert ks[j] == front[j];
      if PlaceholderKey(prefix, ks[j]) == PlaceholderKey(prefix, ks[n]) {
        PlaceholderKeyInjective(prefix, ks[j], ks[n]);
      }
    }
  }

  /** The store after `useContext`: an unknown name, or a context object
      whose guard rejects the object, leaves it as it was; otherwise the
      registered mapping is applied. */
  function UseContextSpec(ph: PArray<Value>, fm: map<string, FormatterPlugin>, fallback: string,
                          contexts: map<string, ContextEntry>, name: string, obj: Value, prefix: string): PArray<Value>
  {
    if name !in contexts then ph
    else match contexts[name]
      case InstanceEntry(p) =>
        if !p.canProcess(obj) then ph
        else FromContext(ph, fm, fallback, prefix, obj, p.mapping.keys, p.mapping.entries)
      case MappingEntry(m) => FromContext(ph, fm, fallback, prefix, obj, m.keys, m.entries)
  }

  /** The names of the registered context objects, in registration order. */
  function InstanceNames(ks: seq<string>, entries: map<string, ContextEntry>): (r: seq<string>)
    requires forall k :: k in ks ==> k in entries
    ensures |r| <= |ks|
    ensures forall n :: n in r <==> n in ks && entries[n].InstanceEntry?
    decreases |ks|
  {
    if ks == [] then []
    else
      var k := ks[|ks| - 1];
      var front := InstanceNames(ks[..|ks| - 1], entries);
      assert ks == ks[..|ks| - 1] + [k];
      if entries[k].InstanceEntry? then front + [k] else front
  }

  // ---------------------------------------------------------------- replace

  /** The `foreach` of `replace`: each known placeholder, in insertion
      order, is replaced in the text produced so far. */
  function ReplaceKnown(ks: seq<string>, vals: map<string, Value>, start: string, end: string, content: string): string
    requires forall k :: k in ks ==> k in vals
    decreases |ks|
  {
    if ks == [] then content
    else
      var k := ks[|ks| - 1];
      StrReplace(start + k + end, ToStr(vals[k]), ReplaceKnown(ks[..|ks| - 1], vals, start, end, content))
  }

  /** `replace`: the known placeholders, then every remaining token becomes
      the fallback. */
  function ReplaceText(ph: PArray<Value>, start: string, end: string, fallback: string, content: string): string
    requires end != []
  {
    Substitute(Tokenize(ReplaceKnown(ph.keys, ph.entries, start, end, content), start, end), Constant(fallback))
  }

  lemma {:induction false} ReplaceKnownWithoutStart(ks: seq<string>, vals: map<string, Value>, start: string, end: string, content: string)
    requires forall k :: k in ks ==> k in vals
    requires !Occurs(start, content)
    ensures ReplaceKnown(ks, vals, start, end, content) == content
    decreases |ks|
  {
    if ks != [] {
      var k := ks[|ks| - 1];
      assert forall j :: j in ks[..|ks| - 1] ==> j in ks;
      ReplaceKnownWithoutStart(ks[..|ks| - 1], vals, start, end, content);
      NotOccursExtended(start, k + end, content);
      assert start + k + end == start + (k + end);
      StrReplaceAbsent(start + k + end, ToStr(vals[k]), content);
    }
  }

  /** A text without the start delimiter comes out of `replace` unchanged. */
  lemma ReplaceWithoutStart(ph: PArray<Value>, start: string, end: string, fallback: string, content: string)
    requires start != [] && end != []
    requires !Occurs(start, content)
    ensures ReplaceText(ph, start, end, fallback, content) == content
  {
    ReplaceKnownWithoutStart(ph.keys, ph.entries, start, end, content);
    SubstituteWithoutStart(content, start, end, Constant(fallback));
  }

  /** A known placeholder in plain text is replaced by its value, when
      neither the text around it nor the value has the start delimiter. */
  lemma ReplaceOne(u: string, k: string, w: string, v: Value, start: string, end: string, fallback: string)
    requires start != [] && end != []
    requires start[0] !in u && start[0] !in w && start[0] !in ToStr(v)
    ensures ReplaceText(Put(Empty(), k, v), start, end, fallback, u + (start + k + end) + w) == u + ToStr(v) + w
  {
    var ph := Put(Empty(), k, v);
    assert ph.keys == [k];
    var out := u + ToStr(v) + w;
    ReplaceKnownOne(u, k, w, v, start, end);
    assert start[0] !in out;
    NoFirstChar(start, out);
    SubstituteWithoutStart(out, start, end, Constant(fallback));
  }

  lemma ReplaceKnownOne(u: string, k: string, w: string, v: Value, start: string, end: string)
    requires start != []
    requires start[0] !in u && start[0] !in w
    ensures ReplaceKnown([k], map[k := v], start, end, u + (start + k + end) + w) == u + ToStr(v) + w
  {
    var needle := start + k + end;
    assert needle[0] == start[0];
    ReplaceKnownSingle(k, map[k := v], start, end, u + needle + w);
    StrReplaceOnce(needle, ToStr(v), u, w);
  }

  lemma ReplaceKnownSingle(k: string, vals: map<string, Value>, start: string, end: string, content: string)
    requires k in vals
    ensures ReplaceKnown([k], vals, start, end, content) == StrReplace(start + k + end, ToStr(vals[k]), content)
  {
    assert [k][..0] == [];
  }

  /** Keys whose tokens do not occur in the text leave it unchanged. */
  lemma {:induction false} ReplaceKnownUnchanged(ks: seq<string>, vals: map<string, Value>,
                                                 start: string, end: string, content: string)
    requires forall k :: k in ks ==> k in vals
    requires forall m :: 0 <= m < |ks| ==> !Occurs(start + ks[m] + end, content)
    ensures ReplaceKnown(ks, vals, start, end, content) == content
    decreases |ks|
  {
    if ks != [] {
      var front := ks[..|ks| - 1];
      assert forall j :: j in front ==> j in ks;
      assert forall m :: 0 <= m < |front| ==> front[m] == ks[m];
      ReplaceKnownUnchanged(front, vals, start, end, content);
      StrReplaceAbsent(start + ks[|ks| - 1] + end, ToStr(vals[ks[|ks| - 1]]), content);
    }
  }

  /** The loop over keys `ks` whose `i`-th key has its token once in the
      text, the keys before it having none there: those keys change
      nothing, the `i`-th puts its value in, and the keys after it find no
      start delimiter. */
  lemma {:induction false} ReplaceKnownAt(ks: seq<string>, i: nat, vals: map<string, Value>,
                                          u: string, w: string, start: string, end: string)
    requires start != [] && i < |ks|
    requires forall j :: j in ks ==> j in vals
    requires forall m :: 0 <= m < i ==> !Occurs(start + ks[m] + end, u + (start + ks[i] + end) + w)
    requires start[0] !in u && start[0] !in w && start[0] !in ToStr(vals[ks[i]])
    ensures ReplaceKnown(ks, vals, start, end, u + (start + ks[i] + end) + w) == u + ToStr(vals[ks[i]]) + w
    decreases |ks|
  {
    var k := ks[i];
    var front := ks[..|ks| - 1];
    assert forall j :: j in front ==> j in ks;
    assert forall m :: 0 <= m < |front| ==> front[m] == ks[m];
    if |ks| == i + 1 {
      ReplaceKnownFirst(front, k, vals, u, w, start, end);
    } else {
      ReplaceKnownAt(front, i, vals, u, w, start, end);
      var x := ks[|ks| - 1];
      ReplaceWithoutFirstChar(start, x, end, ToStr(vals[x]), u + ToStr(vals[k]) + w);
    }
  }

  /** The keys before `k` change nothing, and `k` puts its value in. */
  lemma ReplaceKnownFirst(p: seq<string>, k: string, vals: map<string, Value>,
                          u: string, w: string, start: string, end: string)
    requires start != [] && k in vals
    requires forall j :: j in p ==> j in vals
    requires forall m :: 0 <= m < |p| ==> !Occurs(start + p[m] + end, u + (start + k + end) + w)
    requires start[0] !in u && start[0] !in w
    ensures StrReplace(start + k + end, ToStr(vals[k]), ReplaceKnown(p, vals, start, end, u + (start + k + end) + w))
         == u + ToStr(vals[k]) + w
  {
    ReplaceKnownUnchanged(p, vals, start, end, u + (start + k + end) + w);
    var needle := start + k + end;
    assert needle[0] == start[0];
    StrReplaceOnce(needle, ToStr(vals[k]), u, w);
  }

  /** A token finds nothing to replace in a text without the start
      delimiter's first character. */
  lemma ReplaceWithoutFirstChar(start: string, x: string, end: string, rep: string, out: string)
    requires start != [] && start[0] !in out
    ensures StrReplace(start + x + end, rep, out) == out
  {
    var needle := start + x + end;
    assert needle[0] == start[0];
    NoFirstChar(needle, out);
    StrReplaceAbsent(needle, rep, out);
  }

  /** `replace` on any store: a stored placeholder is replaced by its
      value's string form, when no other stored key's token occurs in the
      template and neither the text around it nor the value has the start
      delimiter's first character. */
  lemma ReplaceKnownKey(ph: PArray<Value>, u: string, k: string, w: string, start: string, end: string, fallback: string)
    requires start != [] && end != []
    requires k in ph.entries
    requires start[0] !in u && start[0] !in w && start[0] !in ToStr(ph.entries[k])
    requires forall j :: j in ph.entries && j != k ==> !Occurs(start + j + end, u + (start + k + end) + w)
    ensures ReplaceText(ph, start, end, fallback, u + (start + k + end) + w) == u + ToStr(ph.entries[k]) + w
  {
    var i :| 0 <= i < |ph.keys| && ph.keys[i] == k;
    forall m | 0 <= m < i ensures !Occurs(start + ph.keys[m] + end, u + (start + k + end) + w) {
      assert ph.keys[m] in ph.keys && ph.keys[m] != k;
    }
    ReplaceKnownAt(ph.keys, i, ph.entries, u, w, start, end);
    var out := u + ToStr(ph.entries[k]) + w;
    assert start[0] !in out;
    NoFirstChar(start, out);
    SubstituteWithoutStart(out, start, end, Constant(fallback));
  }

  /** `replace` on any store: a token whose key is not stored becomes the
      fallback, when no stored key's token occurs in the template and the
      text around it has no start delimiter's first character. */
  lemma ReplaceUnknownKey(ph: PArray<Value>, u: string, k: string, w: string, start: string, end: string, fallback: string)
    requires start != [] && end != []
    requires k !in ph.entries && IsBody(k, end)
    requires start[0] !in u && start[0] !in w
    requires forall j :: j in ph.entries ==> !Occurs(start + j + end, u + (start + k + end) + w)
    ensures ReplaceText(ph, start, end, fallback, u + (start + k + end) + w) == u + fallback + w
  {
    assert forall m :: 0 <= m < |ph.keys| ==> ph.keys[m] in ph.keys;
    ReplaceKnownUnchanged(ph.keys, ph.entries, start, end, u + (start + k + end) + w);
    SweepToken(u, k, w, start, end, Constant(fallback));
  }

  /** The sweep over plain text, one token and plain text. */
  lemma SweepToken(u: string, k: string, w: string, start: string, end: string, f: string -> string)
    requires start != [] && end != [] && IsBody(k, end)
    requires start[0] !in u && start[0] !in w
    ensures Substitute(Tokenize(u + (start + k + end) + w, start, end), f) == u + f(k) + w
  {
    var tail := start + k + end + w;
    assert u + (start + k + end) + w == u + tail;
    TokenizePlainPrefix(u, tail, start, end);
    SubstituteAppend(Texts(u), Tokenize(tail, start, end), f);
    SubstituteTexts(u, f);
    SubstituteLeadingToken(start, k, end, w, f);
    NoFirstChar(start, w);
    SubstituteWithoutStart(w, start, end, f);
  }

  // ---------------------------------------------------------------- modifiers

  /** The formatter name and the trimmed arguments of one modifier,
      `name` or `name:arg1,arg2`. The modifier is trimmed first; the name
      is not trimmed again. */
  function ParseModifier(m: string): (r: (string, seq<string>))
    ensures ':' !in r.0
    ensures r.1 != [] ==> ':' in Trim(m)
  {
    var t := Trim(m);
    if ':' in t then
      var (name, args) := SplitFirst(':', t);
      (name, TrimAll(Explode(",", args)))
    else (t, [])
  }

  /** `array_map('trim', $parts)`. */
  function TrimAll(parts: seq<string>): (r: seq<string>)
    ensures |r| == |parts|
    ensures forall i :: 0 <= i < |parts| ==> r[i] == Trim(parts[i])
    decreases |parts|
  {
    if parts == [] then [] else [Trim(parts[0])] + TrimAll(parts[1..])
  }

  /** Arguments arrive at the formatter as strings. */
  function Strings(args: seq<string>): (r: seq<Value>)
    ensures |r| == |args|
    ensures forall i :: 0 <= i < |args| ==> r[i] == VStr(args[i])
    decreases |args|
  {
    if args == [] then [] else [VStr(args[0])] + Strings(args[1..])
  }

  /** One step of the modifier chain: a registered formatter is applied and
      a throwing one leaves the value as it was; an unknown name is skipped. */
  function ApplyModifier(fm: map<string, FormatterPlugin>, fallback: string, v: Value, m: string): (r: Value)
    ensures ParseModifier(m).0 !in fm ==> r == v
    ensures ParseModifier(m).0 in fm ==> r.VStr? || r == v
  {
    var (name, args) := ParseModifier(m);
    if name !in fm then v
    else match Apply(fm[name], fallback, v, Strings(args))
      case Done(x) => x
      case Threw => v
  }

  /** A registered modifier whose formatter throws leaves the value as it
      was: the exception is caught and the loop goes on. */
  lemma ApplyModifierThrowKeeps(fm: map<string, FormatterPlugin>, fallback: string, v: Value, m: string)
    requires ParseModifier(m).0 in fm
    requires Apply(fm[ParseModifier(m).0], fallback, v, Strings(ParseModifier(m).1)).Threw?
    ensures ApplyModifier(fm, fallback, v, m) == v
  {
  }

  /** The modifiers applied left to right. */
  function Pipeline(fm: map<string, FormatterPlugin>, fallback: string, v: Value, mods: seq<string>): (r: Value)
    ensures r == v || r.VStr?
    decreases |mods|
  {
    if mods == [] then v
    else ApplyModifier(fm, fallback, Pipeline(fm, fallback, v, mods[..|mods| - 1]), mods[|mods| - 1])
  }

  /** A chain split in two is the second part run on the result of the first. */
  lemma {:induction false} PipelineAppend(fm: map<string, FormatterPlugin>, fallback: string, v: Value, a: seq<string>, b: seq<string>)
    ensures Pipeline(fm, fallback, v, a + b) == Pipeline(fm, fallback, Pipeline(fm, fallback, v, a), b)
    decreases |b|
  {
    if b == [] {
      assert a + b == a;
    } else {
      var n := |b| - 1;
      assert (a + b)[..|a + b| - 1] == a + b[..n];
      assert (a + b)[|a + b| - 1] == b[n];
      PipelineAppend(fm, fallback, v, a, b[..n]);
    }
  }

  /** Modifiers whose names are not registered leave the value alone. */
  lemma {:induction false} PipelineUnknown(fm: map<string, FormatterPlugin>, fallback: string, v: Value, mods: seq<string>)
    requires forall i :: 0 <= i < |mods| ==> ParseModifier(mods[i]).0 !in fm
    ensures Pipeline(fm, fallback, v, mods) == v
    decreases |mods|
  {
    if mods != [] {
      var n := |mods| - 1;
      forall i | 0 <= i < n ensures ParseModifier(mods[..n][i]).0 !in fm {
        assert mods[..n][i] == mods[i];
      }
      PipelineUnknown(fm, fallback, v, mods[..n]);
    }
  }

  /** What the callback of `replaceWithModifiers` makes of a token body. A
      body with `|` names a key (trimmed) and a chain of modifiers; a key
      with no value set gives the fallback. A body without `|` is looked up
      as it is, untrimmed. */
  function Resolve(ph: PArray<Value>, fm: map<string, FormatterPlugin>, fallback: string, body: string): (r: Value)
    ensures '|' !in body && body !in ph.entries ==> r == VStr(fallback)
  {
    if '|' in body then
      var (k, rest) := SplitFirst('|', body);
      var key := Trim(k);
      if Lookup(ph, key) == VNull then VStr(fallback)
      else Pipeline(fm, fallback, Lookup(ph, key), Explode("|", rest))
    else Coalesce(Lookup(ph, body), VStr(fallback))
  }

  /** The callback with its result cast to string. */
  function Resolver(ph: PArray<Value>, fm: map<string, FormatterPlugin>, fallback: string): string -> string
  {
    body => ToStr(Resolve(ph, fm, fallback, body))
  }

  /** `replaceWithModifiers`: every token is resolved once; text a token
      resolves to is not scanned again. */
  function RenderModifiers(ph: PArray<Value>, fm: map<string, FormatterPlugin>, fallback: string,
                           start: string, end: string, content: string): string
    requires end != []
  {
    Substitute(Tokenize(content, start, end), Resolver(ph, fm, fallback))
  }

  /** A token at the front is resolved once and its text emitted as it is,
      never scanned again, even when it looks like a placeholder itself. */
  lemma RenderLeadingToken(ph: PArray<Value>, fm: map<string, FormatterPlugin>, fallback: string,
                           start: string, b: string, end: string, w: string)
    requires end != [] && IsBody(b, end)
    ensures RenderModifiers(ph, fm, fallback, start, end, start + b + end + w)
         == ToStr(Resolve(ph, fm, fallback, b)) + RenderModifiers(ph, fm, fallback, start, end, w)
  {
    SubstituteLeadingToken(start, b, end, w, Resolver(ph, fm, fallback));
  }

  /** A token whose key has no value gives the fallback, whatever its
      modifiers. */
  lemma MissingKeyGivesFallback(ph: PArray<Value>, fm: map<string, FormatterPlugin>, fallback: string,
                                start: string, k: string, mods: string, end: string, w: string)
    requires end != [] && IsBody(k + "|" + mods, end)
    requires '|' !in k && Trim(k) !in ph.entries
    ensures RenderModifiers(ph, fm, fallback, start, end, start + (k + "|" + mods) + end + w)
         == fallback + RenderModifiers(ph, fm, fallback, start, end, w)
  {
    ResolverMissing(ph, fm, fallback, k, mods);
    SubstituteLeadingTokenAs(start, k + "|" + mods, end, w, Resolver(ph, fm, fallback), fallback);
  }

  /** A piped body whose key has no value resolves to the fallback. */
  lemma ResolverMissing(ph: PArray<Value>, fm: map<string, FormatterPlugin>, fallback: string, k: string, mods: string)
    requires '|' !in k && Trim(k) !in ph.entries
    ensures Resolver(ph, fm, fallback)(k + "|" + mods) == fallback
  {
    var b := k + "|" + mods;
    assert b == k + ['|'] + mods;
    SplitFirstUnique('|', k, mods);
    ResolverSplitMissing(ph, fm, fallback, b);
  }

  lemma ResolverSplitMissing(ph: PArray<Value>, fm: map<string, FormatterPlugin>, fallback: string, b: string)
    requires '|' in b && Trim(SplitFirst('|', b).0) !in ph.entries
    ensures Resolver(ph, fm, fallback)(b) == fallback
  {
    assert Resolve(ph, fm, fallback, b) == VStr(fallback);
  }

  /** `explode('|', $s, 2)` splits at the first `|`. */
  lemma {:induction false} SplitFirstUnique(c: char, a: string, b: string)
    requires c !in a
    ensures c in a + [c] + b && SplitFirst(c, a + [c] + b) == (a, b)
    decreases |a|
  {
    var s := a + [c] + b;
    assert s[|a|] == c;
    if a != [] {
      assert s[0] == a[0];
      assert s[1..] == a[1..] + [c] + b;
      SplitFirstUnique(c, a[1..], b);
      assert a == [a[0]] + a[1..];
    } else {
      assert s[1..] == b;
    }
  }

  // ---------------------------------------------------------------- scenarios

  /** With no known placeholder, a token after plain text becomes the
      fallback. */
  lemma ReplaceUnknown(ph: PArray<Value>, u: string, k: string, start: string, end: string, fallback: string)
    requires ph.keys == [] && start != [] && end != []
    requires start[0] !in u && IsBody(k, end)
    ensures ReplaceText(ph, start, end, fallback, u + (start + k + end)) == u + fallback
  {
    var t := start + k + end;
    var f := Constant(fallback);
    TokenizePlainPrefix(u, t, start, end);
    SubstituteAppend(Texts(u), Tokenize(t, start, end), f);
    SubstituteTexts(u, f);
    assert t == start + k + end + [];
    SubstituteLeadingToken(start, k, end, [], f);
  }

  /** `replace` scans the text again after each known placeholder, so a
      value that spells a later placeholder is replaced too: with `a` set
      to `{b}` and `b` set afterwards to `x`, `{a}` renders as `x`. */
  lemma ReplaceRescans(a: string, b: string, x: string, start: string, end: string, fallback: string)
    requires start != [] && end != [] && a != b && start[0] !in x
    ensures var ph := Put(Put(Empty(), a, VStr(start + b + end)), b, VStr(x));
      ReplaceText(ph, start, end, fallback, start + a + end) == x
  {
    var ph := Put(Put(Empty(), a, VStr(start + b + end)), b, VStr(x));
    PutTwo(a, b, VStr(start + b + end), VStr(x));
    ReplaceKnownTwo(a, b, ph.entries, start, end, start + a + end);
    StrReplaceWhole(start + a + end, start + b + end);
    StrReplaceWhole(start + b + end, x);
    NoFirstChar(start, x);
    SubstituteWithoutStart(x, start, end, Constant(fallback));
  }

  /** Two distinct keys stored in a fresh array, in order. */
  lemma PutTwo(a: string, b: string, va: Value, vb: Value)
    requires a != b
    ensures var ph := Put(Put(Empty(), a, va), b, vb);
      ph.keys == [a, b] && a in ph.entries && ph.entries[a] == va && b in ph.entries && ph.entries[b] == vb
  {
  }

  /** `replace`'s loop over two keys. */
  lemma ReplaceKnownTwo(a: string, b: string, vals: map<string, Value>, start: string, end: string, content: string)
    requires a in vals && b in vals
    ensures ReplaceKnown([a, b], vals, start, end, content)
         == StrReplace(start + b + end, ToStr(vals[b]), StrReplace(start + a + end, ToStr(vals[a]), content))
  {
    assert [a, b][..1] == [a];
    ReplaceKnownSingle(a, vals, start, end, content);
  }

  /** `replaceWithModifiers` does not: the same store renders `{a}` as
      `{b}`. */
  lemma ModifiersDoNotRescan(a: string, b: string, x: string, fm: map<string, FormatterPlugin>,
                             start: string, end: string, fallback: string)
    requires end != [] && a != b && IsBody(a, end) && '|' !in a
    ensures var ph := Put(Put(Empty(), a, VStr(start + b + end)), b, VStr(x));
      RenderModifiers(ph, fm, fallback, start, end, start + a + end) == start + b + end
  {
    var ph := Put(Put(Empty(), a, VStr(start + b + end)), b, VStr(x));
    PutTwo(a, b, VStr(start + b + end), VStr(x));
    ResolverPlain(ph, fm, fallback, a);
    assert start + a + end == start + a + end + [];
    SubstituteLeadingTokenAs(start, a, end, [], Resolver(ph, fm, fallback), start + b + end);
    assert Tokenize([], start, end) == [];
  }

  /** A body without modifiers resolves to its stored value. */
  lemma ResolverPlain(ph: PArray<Value>, fm: map<string, FormatterPlugin>, fallback: string, k: string)
    requires '|' !in k && k in ph.entries && ph.entries[k] != VNull
    ensures Resolver(ph, fm, fallback)(k) == ToStr(ph.entries[k])
  {
    assert Resolve(ph, fm, fallback, k) == ph.entries[k];
  }

  /** `{key|name}`, where the modifier `name` is plain and registered as
      the built-in upper formatter, gives the upper-cased value. */
  lemma UpperModifier(ph: PArray<Value>, fm: map<string, FormatterPlugin>, fallback: string, k: string, n: string, s: string)
    requires n in fm && fm[n] == UpperFormatter.Plugin()
    requires '|' !in n && ':' !in n && Trim(n) == n
    requires '|' !in k && Trim(k) == k && k in ph.entries && ph.entries[k] == VStr(s)
    ensures Resolve(ph, fm, fallback, k + "|" + n) == VStr(StrToUpper(s))
  {
    assert k + "|" + n == k + ['|'] + n;
    SplitFirstUnique('|', k, n);
    ExplodeAbsent('|', n);
    assert ParseModifier(n) == (n, []);
    var v := VStr(s);
    assert Pipeline(fm, fallback, v, [n]) == ApplyModifier(fm, fallback, v, n) by {
      assert [n][..0] == [];
    }
    assert UpperFormatter.Format(v, []) == Done(StrToUpper(s));
    assert Apply(fm[n], fallback, v, Strings([])) == Done(VStr(StrToUpper(s)));
  }
}
