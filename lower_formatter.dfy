/** src/Formatters/LowerFormatter.php: `strtolower((string) $value)`. */
module LowerFormatter {
  import opened Values
  import opened PhpString
  import opened Contracts

  const Name: string := "lower"

  /** Strings and numbers. Objects with `__toString` are not modelled. */
  predicate CanFormat(v: Value)
  {
    IsStringOrNumeric(v)
  }

  /** An object throws: its `(string)` cast raises an Error, as objects
      with `__toString` are not modelled. For any other value, every ASCII
      upper-case letter of its string form becomes lower case, and every
      other character and the length stay as they are. Extra arguments are
      ignored. */
  function Format(v: Value, args: seq<Value>): (r: Outcome<string>)
    ensures r.Done? <==> !v.VObj?
    ensures r.Done? ==> |r.value| == |ToStr(v)|
    ensures forall i :: r.Done? && 0 <= i < |ToStr(v)| && IsUpperAscii(ToStr(v)[i]) ==>
      r.value[i] as int == ToStr(v)[i] as int + 32
    ensures forall i :: r.Done? && 0 <= i < |ToStr(v)| && !IsUpperAscii(ToStr(v)[i]) ==>
      r.value[i] == ToStr(v)[i]
  {
    if v.VObj? then Threw else Done(StrToLower(ToStr(v)))
  }

  function Plugin(): (p: FormatterPlugin)
    ensures p.name == "lower"
  {
    FormatterPlugin(Name, CanFormat, Format)
  }

  /** Lower-casing a lower-cased value changes nothing. */
  lemma Idempotent(v: Value, a: seq<Value>, b: seq<Value>)
    ensures Format(v, a).Done? ==> Format(VStr(Format(v, a).value), b) == Format(v, a)
  {
    var s := ToStr(v);
    var l := StrToLower(s);
    var ll := StrToLower(l);
    forall i | 0 <= i < |s| ensures ll[i] == l[i] {
      if IsUpperAscii(s[i]) {
        assert !IsUpperAscii(l[i]);
      }
    }
    assert ll == l;
  }

  lemma Example()
    ensures Format(VStr("John DOE"), []) == Done("john doe")
  {
    var s := "John DOE";
    assert s == "John" + " DOE";
    StrToLowerConcat("John", " DOE");
    LowerFirst();
    LowerSecond();
    assert "john" + " doe" == "john doe";
    assert Format(VStr(s), []) == Done(StrToLower(s));
  }

  lemma LowerFirst() ensures StrToLower("John") == "john" {}

  lemma LowerSecond() ensures StrToLower(" DOE") == " doe" {}

  lemma GuardExamples()
    ensures CanFormat(VStr("hello")) && CanFormat(VInt(123)) && !CanFormat(VNull)
  {
  }
}
