/** src/PlaceholderHandler.php: the handler object. It keeps the placeholder
    store, the formatter and context registries, the fallback text and the
    two delimiters, and renders templates.

    A formatter is registered as the plugin itself; calling the closure PHP
    stores for it is `CallFormatter`, which reads the fallback at the time
    of the call as the closure does. */
module Handler {
  import opened Values
  import opened PhpString
  import opened PhpArray
  import opened Contracts
  import opened TokenScanner
  import opened HandlerSpec
  import UpperFormatter
  import LowerFormatter

  /** A PHP `Closure` given to `addLazy`: what calling it yields, and how
      many times it has been called. */
  class Thunk {
    const outcome: Outcome<Value>
    var calls: nat

    constructor(o: Outcome<Value>)
      ensures outcome == o && calls == 0
    {
      outcome := o;
      calls := 0;
    }

    method Call() returns (r: Outcome<Value>)
      modifies this
      ensures r == outcome && calls == old(calls) + 1
    {
      calls := calls + 1;
      r := outcome;
    }
  }

  /** `registerFormatter` on a registry: the formatter goes under its own
      name, replacing one registered before under that name. */
  function Register(fm: PArray<FormatterPlugin>, p: FormatterPlugin): (r: PArray<FormatterPlugin>)
    ensures p.name in r.entries && r.entries[p.name] == p
    ensures forall n :: n in fm.entries && n != p.name ==> n in r.entries && r.entries[n] == fm.entries[n]
  {
    Put(fm, p.name, p)
  }

  /** `registerFormatter` on each plugin in turn. */
  function RegisterAll(fm: PArray<FormatterPlugin>, ps: seq<FormatterPlugin>): (r: PArray<FormatterPlugin>)
    ensures forall i :: 0 <= i < |ps| ==> ps[i].name in r.entries
    ensures forall n :: n in fm.entries ==> n in r.entries
    decreases |ps|
  {
    if ps == [] then fm else RegisterAll(Register(fm, ps[0]), ps[1..])
  }

  /** The plugins `registerBuiltInFormatters` registers, in its order. */
  function BuiltinPlugins(date: FormatterPlugin, currency: FormatterPlugin, number: FormatterPlugin,
                          title: FormatterPlugin): seq<FormatterPlugin>
  {
    [date, currency, number, UpperFormatter.Plugin(), LowerFormatter.Plugin(), title]
  }

  /** The registry after `registerBuiltInFormatters`: `registerFormatter`
      on date, currency, number, upper, lower and title, in that order. */
  function Builtins(date: FormatterPlugin, currency: FormatterPlugin, number: FormatterPlugin,
                    title: FormatterPlugin): PArray<FormatterPlugin>
  {
    RegisterAll(Empty(), BuiltinPlugins(date, currency, number, title))
  }

  lemma {:induction false} RegisterAllAppend(fm: PArray<FormatterPlugin>, ps: seq<FormatterPlugin>, qs: seq<FormatterPlugin>)
    ensures RegisterAll(fm, ps + qs) == RegisterAll(RegisterAll(fm, ps), qs)
    decreases |ps|
  {
    if ps == [] {
      assert ps + qs == qs;
    } else {
      assert (ps + qs)[0] == ps[0] && (ps + qs)[1..] == ps[1..] + qs;
      RegisterAllAppend(Register(fm, ps[0]), ps[1..], qs);
    }
  }

  lemma RegisterAllThree(fm: PArray<FormatterPlugin>, a: FormatterPlugin, b: FormatterPlugin, c: FormatterPlugin)
    ensures RegisterAll(fm, [a, b, c]) == Register(Register(Register(fm, a), b), c)
  {
    var f1 := Register(fm, a);
    var f2 := Register(f1, b);
    assert [a, b, c][1..] == [b, c];
    assert RegisterAll(fm, [a, b, c]) == RegisterAll(f1, [b, c]);
    assert [b, c][1..] == [c];
    assert RegisterAll(f1, [b, c]) == RegisterAll(f2, [c]);
    assert [c][1..] == [];
    assert RegisterAll(f2, [c]) == RegisterAll(Register(f2, c), []);
  }

  /** The six built-in formatters have distinct names, so each gets its own
      entry, in registration order. */
  lemma BuiltinNames(date: FormatterPlugin, currency: FormatterPlugin, number: FormatterPlugin, title: FormatterPlugin)
    requires date.name == "date" && currency.name == "currency"
    requires number.name == "number" && title.name == "title"
    ensures Builtins(date, currency, number, title).keys == ["date", "currency", "number", "upper", "lower", "title"]
  {
    BuiltinsChain(date, currency, number, title);
    FirstThree(date, currency, number);
    LastThree(Register(Register(Register(Empty(), date), currency), number),
              UpperFormatter.Plugin(), LowerFormatter.Plugin(), title);
  }

  /** The fold written out: six `registerFormatter` calls in a row. */
  lemma BuiltinsChain(date: FormatterPlugin, currency: FormatterPlugin, number: FormatterPlugin, title: FormatterPlugin)
    ensures Builtins(date, currency, number, title)
         == Register(Register(Register(Register(Register(Register(Empty(), date), currency), number),
              UpperFormatter.Plugin()), LowerFormatter.Plugin()), title)
  {
    var upper, lower := UpperFormatter.Plugin(), LowerFormatter.Plugin();
    var ps, qs := [date, currency, number], [upper, lower, title];
    assert BuiltinPlugins(date, currency, number, title) == ps + qs;
    RegisterAllAppend(Empty(), ps, qs);
    RegisterAllThree(Empty(), date, currency, number);
    RegisterAllThree(RegisterAll(Empty(), ps), upper, lower, title);
  }

  lemma FirstThree(date: FormatterPlugin, currency: FormatterPlugin, number: FormatterPlugin)
    requires date.name == "date" && currency.name == "currency" && number.name == "number"
    ensures Register(Register(Register(Empty(), date), currency), number).keys == ["date", "currency", "number"]
  {
    RegisterDate(date);
    var f1 := Register(Empty(), date);
    RegisterCurrency(f1, currency);
    RegisterNumber(Register(f1, currency), number);
  }

  lemma RegisterDate(date: FormatterPlugin)
    requires date.name == "date"
    ensures Register(Empty(), date).keys == ["date"]
  {
  }

  lemma RegisterCurrency(f1: PArray<FormatterPlugin>, currency: FormatterPlugin)
    requires f1.keys == ["date"] && currency.name == "currency"
    ensures Register(f1, currency).keys == ["date", "currency"]
  {
    NewName(f1, currency, 'c');
  }

  lemma RegisterNumber(f2: PArray<FormatterPlugin>, number: FormatterPlugin)
    requires f2.keys == ["date", "currency"] && number.name == "number"
    ensures Register(f2, number).keys == ["date", "currency", "number"]
  {
    NewName(f2, number, 'n');
  }

  lemma LastThree(f3: PArray<FormatterPlugin>, upper: FormatterPlugin, lower: FormatterPlugin, title: FormatterPlugin)
    requires f3.keys == ["date", "currency", "number"]
    requires upper.name == "upper" && lower.name == "lower" && title.name == "title"
    ensures Register(Register(Register(f3, upper), lower), title).keys
         == ["date", "currency", "number", "upper", "lower", "title"]
  {
    AddUpper(f3, upper);
    var f4 := Register(f3, upper);
    AddLower(f4, lower);
    AddTitle(Register(f4, lower), title);
  }

  lemma AddUpper(f3: PArray<FormatterPlugin>, upper: FormatterPlugin)
    requires f3.keys == ["date", "currency", "number"] && upper.name == "upper"
    ensures Register(f3, upper).keys == ["date", "currency", "number", "upper"]
  {
    NewName(f3, upper, 'u');
  }

  lemma AddLower(f4: PArray<FormatterPlugin>, lower: FormatterPlugin)
    requires f4.keys == ["date", "currency", "number", "upper"] && lower.name == "lower"
    ensures Register(f4, lower).keys == ["date", "currency", "number", "upper", "lower"]
  {
    NewName(f4, lower, 'l');
  }

  lemma AddTitle(f5: PArray<FormatterPlugin>, title: FormatterPlugin)
    requires f5.keys == ["date", "currency", "number", "upper", "lower"] && title.name == "title"
    ensures Register(f5, title).keys == ["date", "currency", "number", "upper", "lower", "title"]
  {
    NewName(f5, title, 't');
  }

  /** A formatter whose name starts with a letter no registered name starts
      with goes to the end of the registry. */
  lemma NewName(fm: PArray<FormatterPlugin>, p: FormatterPlugin, c: char)
    requires p.name != [] && p.name[0] == c
    requires forall k :: k in fm.keys ==> k != [] && k[0] != c
    ensures Register(fm, p).keys == fm.keys + [p.name]
  {
  }

  /** The delimiters `process` uses: the two characters of a two-character
      delimiter string, otherwise the defaults. */
  function ProcessDelimiters(delimiter: string): (d: (string, string))
    ensures |d.0| == 1 && |d.1| == 1
    ensures |delimiter| == 2 ==> d.0 + d.1 == delimiter
    ensures |delimiter| != 2 ==> d == ("{", "}")
  {
    if |delimiter| == 2 then ([delimiter[0]], [delimiter[1]]) else ("{", "}")
  }

  /** Neither delimiter `process` uses is a slash, when the delimiter
      string has none. */
  lemma ProcessDelimitersPlain(delimiter: string)
    requires '/' !in delimiter
    ensures '/' !in ProcessDelimiters(delimiter).0 && '/' !in ProcessDelimiters(delimiter).1
    ensures ProcessDelimiters(delimiter).1 != []
  {
    if |delimiter| == 2 {
      assert delimiter[0] in delimiter && delimiter[1] in delimiter;
    } else {
      assert "{" == ['{'] && "}" == ['}'];
    }
  }

  /** The default fallback holds no character that is special in a regex
      replacement. */
  lemma DefaultFallbackPlain()
    ensures '$' !in "N/A" && '\\' !in "N/A"
  {
    var s := "N/A";
    assert s == ['N', '/', 'A'];
    forall i | 0 <= i < |s| ensures s[i] != '$' && s[i] != '\\' {
    }
  }

  class PlaceholderHandler {
    var placeholders: PArray<Value>
    var formatters: PArray<FormatterPlugin>
    var contexts: PArray<ContextEntry>
    var fallback: string
    var startDelimiter: string
    var endDelimiter: string

    /** No placeholder is null: `add` always stores the first non-null of
        its candidates, and the handler's fallback is a string. So `isset`
        on the store is key membership. */
    ghost predicate Valid()
      reads this
    {
      forall k :: k in placeholders.entries ==> placeholders.entries[k] != VNull
    }

    /** `new PlaceholderHandler` outside Laravel: the defaults and the six
        built-in formatters. The date, currency, number and title
        formatters are given as plugins. */
    constructor(date: FormatterPlugin, currency: FormatterPlugin, number: FormatterPlugin, title: FormatterPlugin)
      requires date.name == "date" && currency.name == "currency"
      requires number.name == "number" && title.name == "title"
      ensures Valid()
      ensures placeholders == Empty() && contexts == Empty()
      ensures formatters == Builtins(date, currency, number, title)
      ensures fallback == "N/A" && startDelimiter == "{" && endDelimiter == "}"
    {
      placeholders := Empty();
      formatters := Builtins(date, currency, number, title);
      contexts := Empty();
      fallback := "N/A";
      startDelimiter := "{";
      endDelimiter := "}";
    }

    // ------------------------------------------------------------ adding

    method Add(key: string, value: Value, fb: Value)
      requires Valid()
      modifies this`placeholders
      ensures Valid()
      ensures placeholders == Put(old(placeholders), key, Stored(value, fb, fallback))
    {
      placeholders := Put(placeholders, key, Coalesce(value, Coalesce(fb, VStr(fallback))));
    }

    method AddMany(values: PArray<Value>)
      requires Valid()
      modifies this`placeholders
      ensures Valid()
      ensures placeholders == Many(old(placeholders), values.keys, values.entries, fallback)
    {
      var i := 0;
      while i < |values.keys|
        invariant 0 <= i <= |values.keys|
        invariant Valid()
        invariant placeholders == Many(old(placeholders), values.keys[..i], values.entries, fallback)
      {
        ManyStep(old(placeholders), values.keys, values.entries, fallback, i);
        var k := values.keys[i];
        Add(k, values.entries[k], VNull);
        i := i + 1;
      }
      assert values.keys[..i] == values.keys;
    }

    /** The closure that `registerFormatter` stores, called on a value. */
    method CallFormatter(name: string, value: Value, args: seq<Value>) returns (r: Outcome<Value>)
      requires name in formatters.entries
      ensures r == Apply(formatters.entries[name], fallback, value, args)
    {
      var p := formatters.entries[name];
      if !p.canFormat(value) {
        return Done(VStr(fallback));
      }
      var out := p.format(value, args);
      if out.Done? {
        r := Done(VStr(out.value));
      } else {
        r := Threw;
      }
    }

    /** Calling the date formatter of a registry without one is an `Error`
        that the handler does not catch; the method requires it. */
    method AddDate(key: string, date: Value, format: string, fb: Value)
      requires Valid() && "date" in formatters.entries
      modifies this`placeholders
      ensures Valid()
      ensures placeholders == Put(old(placeholders), key, DateValue(formatters.entries, fallback, date, format, fb))
    {
      if date == VNull {
        Add(key, Coalesce(fb, VStr(fallback)), VNull);
        return;
      }
      var out := CallFormatter("date", date, [VStr(format)]);
      if out.Done? {
        Add(key, out.value, VNull);
      } else {
        Add(key, Coalesce(fb, VStr(fallback)), VNull);
      }
    }

    method AddNullable(key: string, values: seq<Value>)
      requires Valid()
      modifies this`placeholders
      ensures Valid()
      ensures placeholders == Put(old(placeholders), key, Nullable(values, fallback))
    {
      var i := 0;
      while i < |values|
        invariant 0 <= i <= |values|
        invariant placeholders == old(placeholders)
        invariant Nullable(values[i..], fallback) == Nullable(values, fallback)
      {
        assert values[i..][0] == values[i] && values[i..][1..] == values[i + 1..];
        if values[i] != VNull && values[i] != VStr("") {
          Add(key, values[i], VNull);
          return;
        }
        i := i + 1;
      }
      Add(key, VStr(fallback), VNull);
    }

    method AddFormatted(key: string, value: Value, name: string, args: seq<Value>)
      requires Valid()
      modifies this`placeholders
      ensures Valid()
      ensures placeholders == Put(old(placeholders), key, FormattedValue(formatters.entries, fallback, value, name, args))
    {
      if name !in formatters.entries {
        Add(key, value, VNull);
        return;
      }
      var out := CallFormatter(name, value, args);
      if out.Done? {
        Add(key, out.value, VNull);
      } else {
        Add(key, VStr(fallback), VNull);
      }
    }

    /** The callback is called once, right away. */
    method AddLazy(key: string, callback: Thunk, fb: Value)
      requires Valid()
      modifies this`placeholders, callback
      ensures Valid()
      ensures callback.calls == old(callback.calls) + 1
      ensures placeholders == Put(old(placeholders), key, LazyValue(callback.outcome, fb, fallback))
    {
      var out := callback.Call();
      if out.Done? {
        Add(key, out.value, fb);
      } else {
        Add(key, Coalesce(fb, VStr(fallback)), VNull);
      }
    }

    method AddIf(cond: bool, key: string, value: Value, elseValue: Value)
      requires Valid()
      modifies this`placeholders
      ensures Valid()
      ensures placeholders == Put(old(placeholders), key, Conditional(cond, value, elseValue, fallback))
    {
      Add(key, if cond then value else Coalesce(elseValue, VStr(fallback)), VNull);
    }

    // ------------------------------------------------------------ contexts

    /** `getObjectValue`. */
    method GetObjectValue(obj: Value, property: string) returns (v: Value)
      requires obj.VObj?
      ensures v == ObjectValue(obj, property)
    {
      if '.' !in property {
        return Prop(obj, property);
      }
      var parts := Explode(".", property);
      v := obj;
      var i := 0;
      while i < |parts|
        invariant 0 <= i <= |parts|
        invariant Walk(v, parts[i..]) == Walk(obj, parts)
      {
        assert parts[i..][0] == parts[i] && parts[i..][1..] == parts[i + 1..];
        if v.VObj? && Isset(v, parts[i]) {
          v := Prop(v, parts[i]);
        } else {
          return VNull;
        }
        i := i + 1;
      }
      assert parts[i..] == [];
    }

    /** One pass of the loop of `addFromContext`. */
    method AddEntry(prefix: string, obj: Value, key: string, rule: Rule)
      requires Valid() && obj.VObj?
      modifies this`placeholders
      ensures Valid()
      ensures placeholders == Put(old(placeholders), PlaceholderKey(prefix, key),
                                  EntryValue(formatters.entries, fallback, obj, key, rule))
    {
      var pk := if prefix != "" && prefix != "0" then prefix + "." + key else key;
      match rule {
        case ConfigRule(property, formatter) =>
          var v := GetObjectValue(obj, if property.Some? then property.value else key);
          if formatter.Some? {
            AddFormatted(pk, v, formatter.value, []);
          } else {
            Add(pk, v, VNull);
          }
        case ClosureRule(extract) =>
          var t := new Thunk(extract(obj));
          AddLazy(pk, t, VNull);
        case PathRule(path) =>
          var v := GetObjectValue(obj, path);
          Add(pk, v, VNull);
      }
    }

    method AddFromContext(prefix: string, obj: Value, mapping: PArray<Rule>)
      requires Valid() && obj.VObj?
      modifies this`placeholders
      ensures Valid()
      ensures placeholders == FromContext(old(placeholders), formatters.entries, fallback, prefix, obj,
                                          mapping.keys, mapping.entries)
    {
      var i := 0;
      while i < |mapping.keys|
        invariant 0 <= i <= |mapping.keys|
        invariant Valid()
        invariant placeholders == FromContext(old(placeholders), formatters.entries, fallback, prefix, obj,
                                              mapping.keys[..i], mapping.entries)
      {
        var key := mapping.keys[i];
        assert mapping.keys[..i + 1] == mapping.keys[..i] + [key];
        AddEntry(prefix, obj, key, mapping.entries[key]);
        i := i + 1;
      }
      assert mapping.keys[..i] == mapping.keys;
    }

    method UseContext(name: string, obj: Value, prefix: string)
      requires Valid() && obj.VObj?
      modifies this`placeholders
      ensures Valid()
      ensures placeholders == UseContextSpec(old(placeholders), formatters.entries, fallback, contexts.entries,
                                             name, obj, prefix)
    {
      if name in contexts.entries {
        match contexts.entries[name] {
          case InstanceEntry(p) =>
            if !p.canProcess(obj) {
              return;
            }
            AddFromContext(prefix, obj, p.mapping);
          case MappingEntry(m) =>
            AddFromContext(prefix, obj, m);
        }
      }
    }

    method RegisterContextMapping(name: string, mapping: PArray<Rule>)
      modifies this`contexts
      ensures contexts == Put(old(contexts), name, MappingEntry(mapping))
    {
      contexts := Put(contexts, name, MappingEntry(mapping));
    }

    method RegisterContext(p: ContextPlugin)
      modifies this`contexts
      ensures contexts == Put(old(contexts), p.name, InstanceEntry(p))
    {
      contexts := Put(contexts, p.name, InstanceEntry(p));
    }

    /** `array_keys($this->contexts)`: each registered name once, in
        registration order. */
    method GetRegisteredContexts() returns (names: seq<string>)
      ensures names == contexts.keys
      ensures forall n :: n in names <==> n in contexts.entries
    {
      names := contexts.keys;
    }

    /** The names registered with a context object, in registration order;
        bare mappings are left out. */
    method GetRegisteredContextInstances() returns (names: seq<string>)
      ensures names == InstanceNames(contexts.keys, contexts.entries)
      ensures forall n :: n in names <==> n in contexts.entries && contexts.entries[n].InstanceEntry?
    {
      names := [];
      var i := 0;
      while i < |contexts.keys|
        invariant 0 <= i <= |contexts.keys|
        invariant names == InstanceNames(contexts.keys[..i], contexts.entries)
      {
        var name := contexts.keys[i];
        assert contexts.keys[..i + 1] == contexts.keys[..i] + [name];
        if contexts.entries[name].InstanceEntry? {
          names := names + [name];
        }
        i := i + 1;
      }
      assert contexts.keys[..i] == contexts.keys;
    }

    method HasContext(name: string) returns (b: bool)
      ensures b <==> name in contexts.entries
    {
      b := name in contexts.entries;
    }

    // ------------------------------------------------------------ formatters

    method RegisterFormatter(p: FormatterPlugin)
      modifies this`formatters
      ensures formatters == Register(old(formatters), p)
    {
      formatters := Put(formatters, p.name, p);
    }

    method HasFormatter(name: string) returns (b: bool)
      ensures b <==> name in formatters.entries
    {
      b := name in formatters.entries;
    }

    method GetRegisteredFormatters() returns (names: seq<string>)
      ensures names == formatters.keys
      ensures forall n :: n in names <==> n in formatters.entries
    {
      names := formatters.keys;
    }

    method UnregisterFormatter(name: string)
      modifies this`formatters
      ensures formatters == Remove(old(formatters), name)
    {
      formatters := Remove(formatters, name);
    }

    // ------------------------------------------------------------ settings

    /** The end delimiter defaults to the start delimiter. */
    method SetDelimiter(start: string, end: Option<string>)
      modifies this`startDelimiter, this`endDelimiter
      ensures startDelimiter == start
      ensures endDelimiter == if end.Some? then end.value else start
    {
      startDelimiter := start;
      endDelimiter := if end.Some? then end.value else start;
    }

    method SetFallback(value: string)
      modifies this`fallback
      ensures fallback == value
    {
      fallback := value;
    }

    method All() returns (ph: PArray<Value>)
      ensures ph == placeholders
    {
      ph := placeholders;
    }

    method Clear()
      modifies this`placeholders
      ensures Valid()
      ensures placeholders == Empty()
    {
      placeholders := Empty();
    }

    // ------------------------------------------------------------ rendering

    /** `replace`. The model requires what keeps the regular expression
        the one intended: an end delimiter (an empty one makes the pattern
        invalid), no `/` in the delimiters (`preg_quote` is not given the
        pattern delimiter), and no `$` or `\` in the fallback (they would
        be back-references in the replacement). */
    method Replace(content: string) returns (r: string)
      requires endDelimiter != []
      requires '/' !in startDelimiter && '/' !in endDelimiter
      requires '$' !in fallback && '\\' !in fallback
      ensures r == ReplaceText(placeholders, startDelimiter, endDelimiter, fallback, content)
    {
      r := content;
      var i := 0;
      while i < |placeholders.keys|
        invariant 0 <= i <= |placeholders.keys|
        invariant r == ReplaceKnown(placeholders.keys[..i], placeholders.entries, startDelimiter, endDelimiter, content)
      {
        var key := placeholders.keys[i];
        assert placeholders.keys[..i + 1] == placeholders.keys[..i] + [key];
        var placeholder := startDelimiter + key + endDelimiter;
        r := StrReplace(placeholder, ToStr(placeholders.entries[key]), r);
        i := i + 1;
      }
      assert placeholders.keys[..i] == placeholders.keys;
      r := Substitute(Tokenize(r, startDelimiter, endDelimiter), Constant(fallback));
    }

    /** One pass of the modifier loop of `replaceWithModifiers`. */
    method ApplyModifierStep(value: Value, modifier: string) returns (v: Value)
      ensures v == ApplyModifier(formatters.entries, fallback, value, modifier)
    {
      var m := Trim(modifier);
      var name: string;
      var args: seq<string>;
      if ':' in m {
        var (n, a) := SplitFirst(':', m);
        name := n;
        args := TrimAll(Explode(",", a));
      } else {
        name := m;
        args := [];
      }
      v := value;
      if name in formatters.entries {
        var out := CallFormatter(name, value, Strings(args));
        if out.Done? {
          v := out.value;
        }
      }
    }

    /** The callback of `replaceWithModifiers` on one token body, its
        result cast to string. */
    method ResolveToken(body: string) returns (s: string)
      ensures s == ToStr(Resolve(placeholders, formatters.entries, fallback, body))
    {
      if '|' !in body {
        s := ToStr(Coalesce(Lookup(placeholders, body), VStr(fallback)));
      } else {
        s := ResolvePiped(body);
      }
    }

    /** The callback on a body that holds modifiers: the key before the
        first `|` looked up, the modifiers after it applied in turn. */
    method ResolvePiped(body: string) returns (s: string)
      requires '|' in body
      ensures s == ToStr(Resolve(placeholders, formatters.entries, fallback, body))
    {
      var split := SplitFirst('|', body);
      var v := Lookup(placeholders, Trim(split.0));
      var modifiers := Explode("|", split.1);
      ghost var expected := if v == VNull then VStr(fallback) else Pipeline(formatters.entries, fallback, v, modifiers);
      assert Resolve(placeholders, formatters.entries, fallback, body) == expected by {
        assert '|' in body;
      }
      if v == VNull {
        s := fallback;
      } else {
        s := RunModifiers(v, modifiers);
      }
    }

    /** The modifier loop of `replaceWithModifiers`, its result cast to
        string. */
    method RunModifiers(start: Value, modifiers: seq<string>) returns (s: string)
      ensures s == ToStr(Pipeline(formatters.entries, fallback, start, modifiers))
    {
      var value := start;
      var i := 0;
      while i < |modifiers|
        invariant 0 <= i <= |modifiers|
        invariant value == Pipeline(formatters.entries, fallback, start, modifiers[..i])
      {
        assert modifiers[..i + 1][..i] == modifiers[..i];
        value := ApplyModifierStep(value, modifiers[i]);
        i := i + 1;
      }
      assert modifiers[..i] == modifiers;
      s := ToStr(value);
    }

    /** `replaceWithModifiers`: the scan of `preg_replace_callback`, with
        each token's body handed to the callback. */
    method ReplaceWithModifiers(content: string) returns (r: string)
      requires endDelimiter != []
      requires '/' !in startDelimiter && '/' !in endDelimiter
      ensures r == RenderModifiers(placeholders, formatters.entries, fallback, startDelimiter, endDelimiter, content)
    {
      var ps := Tokenize(content, startDelimiter, endDelimiter);
      ghost var f := Resolver(placeholders, formatters.entries, fallback);
      r := [];
      var i := 0;
      assert ps[0..] == ps;
      assert r + Substitute(ps[0..], f) == Substitute(ps, f);
      while i < |ps|
        invariant 0 <= i <= |ps|
        invariant r + Substitute(ps[i..], f) == Substitute(ps, f)
      {
        SubstituteStep(ps, i, f);
        ghost var rest := Substitute(ps[i + 1..], f);
        ghost var r0 := r;
        var piece: string;
        match ps[i] {
          case Text(c) =>
            piece := [c];
          case Token(b) =>
            piece := ResolveToken(b);
            assert piece == f(b);
        }
        assert Substitute(ps[i..], f) == piece + rest;
        r := r + piece;
        Associative(r0, piece, rest);
        i := i + 1;
      }
      assert ps[i..] == [];
    }

    /** `PlaceholderHandler::process`: a fresh handler, the delimiters of a
        two-character delimiter string, the given placeholders, `replace`. */
    static method Process(content: string, values: PArray<Value>, delimiter: string,
                          date: FormatterPlugin, currency: FormatterPlugin, number: FormatterPlugin,
                          title: FormatterPlugin) returns (r: string)
      requires date.name == "date" && currency.name == "currency"
      requires number.name == "number" && title.name == "title"
      requires '/' !in delimiter
      ensures r == ReplaceText(Many(Empty(), values.keys, values.entries, "N/A"),
                               ProcessDelimiters(delimiter).0, ProcessDelimiters(delimiter).1, "N/A", content)
    {
      var h := new PlaceholderHandler(date, currency, number, title);
      r := h.ProcessFresh(content, values, delimiter);
    }

    /** The body of `process` on the handler it has just created. */
    method ProcessFresh(content: string, values: PArray<Value>, delimiter: string) returns (r: string)
      requires Valid() && placeholders == Empty() && fallback == "N/A"
      requires startDelimiter == "{" && endDelimiter == "}"
      requires '/' !in delimiter
      modifies this`placeholders, this`startDelimiter, this`endDelimiter
      ensures r == ReplaceText(Many(Empty(), values.keys, values.entries, "N/A"),
                               ProcessDelimiters(delimiter).0, ProcessDelimiters(delimiter).1, "N/A", content)
    {
      ghost var d := ProcessDelimiters(delimiter);
      ProcessDelimitersPlain(delimiter);
      DefaultFallbackPlain();
      if |delimiter| == 2 {
        SetDelimiter([delimiter[0]], Some([delimiter[1]]));
      }
      assert startDelimiter == d.0 && endDelimiter == d.1;
      AddMany(values);
      r := Replace(content);
    }
  }
}
