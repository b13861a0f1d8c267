/** src/Formatters/UpperFormatter.php: `strtoupper((string) $value)`. */
module UpperFormatter {
  import opened Values
  import opened PhpString
  import opened Contracts

  const Name: string := "upper"

  /** Strings and numbers. Objects with `__toString` are not modelled. */
  predicate CanFormat(v: Value)
  {
    IsStringOrNumeric(v)
  }

  /** An object throws: its `(string)` cast raises an Error, as objects
      with `__toString` are not modelled. For any other value, every ASCII
      lower-case letter of its string form becomes upper case, and every
      other character and the length stay as they are. Extra arguments are
      ignored. */
  function Format(v: Value, args: seq<Value>): (r: Outcome<string>)
    ensures r.Done? <==> !v.VObj?
    ensures r.Done? ==> |r.value| == |ToStr(v)|
    ensures forall i :: r.Done? && 0 <= i < |ToStr(v)| && IsLowerAscii(ToStr(v)[i]) ==>
      r.value[i] as int == ToStr(v)[i] as int - 32
    ensures forall i :: r.Done? && 0 <= i < |ToStr(v)| && !IsLowerAscii(ToStr(v)[i]) ==>
      r.value[i] == ToStr(v)[i]
  {
    if v.VObj? then Threw else Done(StrToUpper(ToStr(v)))
  }

  function Plugin(): (p: FormatterPlugin)
    ensures p.name == Name
  {
    FormatterPlugin(Name, CanFormat, Format)
  }

  /** Upper-casing an upper-cased value changes nothing. */
  lemma Idempotent(v: Value, a: seq<Value>, b: seq<Value>)
    ensures Format(v, a).Done? ==> Format(VStr(Format(v, a).value), b) == Format(v, a)
  {
    var s := ToStr(v);
    var u := StrToUpper(s);
    var uu := StrToUpper(u);
    forall i | 0 <= i < |s| ensures uu[i] == u[i] {
      if IsLowerAscii(s[i]) {
        assert !IsLowerAscii(u[i]);
      }
    }
    assert uu == u;
  }

  lemma Example()
    ensures Format(VStr("john doe"), []) == Done("JOHN DOE")
  {
    var s := "john doe";
    assert s == "john" + " doe";
    StrToUpperConcat("john", " doe");
    UpperFirst();
    UpperSecond();
    assert "JOHN" + " DOE" == "JOHN DOE";
    assert Format(VStr(s), []) == Done(StrToUpper(s));
  }

  lemma UpperFirst() ensures StrToUpper("john") == "JOHN" {}

  lemma UpperSecond() ensures StrToUpper(" doe") == " DOE" {}

  lemma GuardExamples()
    ensures CanFormat(VStr("hello")) && CanFormat(VInt(123)) && !CanFormat(VNull)
  {
  }
}
