/** examples/Formatter/MalaysianICFormatter.php: a sample formatter for the
    twelve-digit Malaysian identity card number, shown bare, dashed
    (`YYMMDD-PB-####`) or masked (`YYMMDD-**-****`). */
module ICFormatter {
  import opened Values
  import opened PhpString
  import opened Contracts

  const Name: string := "ic"

  /** Strings and numbers. */
  predicate CanFormat(v: Value)
  {
    IsStringOrNumeric(v)
  }

  /** `$options[0] ?? 'default'`. */
  function Style(options: seq<Value>): (st: Value)
    ensures st != VNull
    ensures options == [] ==> st == VStr("default")
  {
    if options == [] then VStr("default") else Coalesce(options[0], VStr("default"))
  }

  /** `substr($ic, 0, 6) . '-**-****'`. */
  function Masked(ic: string): string
    requires |ic| == 12
  {
    ic[..6] + "-**-****"
  }

  /** The birth date, place code and serial joined by dashes. */
  function Dashed(ic: string): string
    requires |ic| == 12
  {
    ic[..6] + "-" + ic[6..8] + "-" + ic[8..12]
  }

  /** The masked form keeps the six birth-date digits and hides the rest. */
  lemma MaskedDigits(ic: string)
    requires |ic| == 12 && AllDigits(ic)
    ensures var r := Masked(ic);
      |r| == 14 && r[..6] == ic[..6] && r[6..] == "-**-****" && DigitsOnly(r) == ic[..6]
  {
    var r := Masked(ic);
    assert r[..6] == ic[..6];
    assert AllDigits(ic[..6]);
    DigitsOnlyJoin(ic[..6], "-**-****", []);
    assert r == ic[..6] + "-**-****" + [];
  }

  /** The dashed form only inserts two dashes. */
  lemma DashedDigits(ic: string)
    requires |ic| == 12 && AllDigits(ic)
    ensures var r := Dashed(ic);
      |r| == 14 && r[6] == '-' && r[9] == '-' && DigitsOnly(r) == ic
  {
    var a, b, c := ic[..6], ic[6..8], ic[8..12];
    assert AllDigits(a) && AllDigits(b) && AllDigits(c);
    var t := b + "-" + c;
    assert Dashed(ic) == a + "-" + t;
    DigitsOnlyJoin(a, "-", t);
    DigitsOnlyJoin(b, "-", c);
    DigitsOnlyOfDigits(c);
    assert ic == a + (b + c);
  }

  /** An empty value gives `N/A`. A non-empty array or an object throws:
      the object can not be cast to a string, and the array, having no
      digits, would be returned as the `string` result. A value without
      exactly twelve digits is returned as it was given. Otherwise the twelve
      digits are laid out in the requested style. */
  function Format(v: Value, options: seq<Value>): (r: Outcome<string>)
    ensures r.Threw? <==> !IsEmpty(v) && (v.VArr? || v.VObj?)
    ensures CanFormat(v) ==> r.Done?
    ensures IsEmpty(v) ==> r == Done("N/A")
    ensures !IsEmpty(v) && r.Done? && |DigitsOnly(ToStr(v))| != 12 ==> r.value == ToStr(v)
    ensures !IsEmpty(v) && r.Done? && |DigitsOnly(ToStr(v))| == 12 ==>
      var ic := DigitsOnly(ToStr(v));
      && (Style(options) == VStr("masked") ==>
            |r.value| == 14 && r.value[..6] == ic[..6] && r.value[6..] == "-**-****"
            && DigitsOnly(r.value) == ic[..6])
      && (Style(options) == VStr("dashed") ==>
            |r.value| == 14 && r.value[6] == '-' && r.value[9] == '-'
            && DigitsOnly(r.value) == ic)
      && (Style(options) != VStr("masked") && Style(options) != VStr("dashed") ==>
            r.value == ic)
  {
    if IsEmpty(v) then Done("N/A")
    else if v.VArr? || v.VObj? then Threw
    else
      var ic := DigitsOnly(ToStr(v));
      if |ic| != 12 then Done(ToStr(v))
      else
        var st := Style(options);
        if st == VStr("masked") then
          MaskedDigits(ic);
          Done(Masked(ic))
        else if st == VStr("dashed") then
          DashedDigits(ic);
          Done(Dashed(ic))
        else Done(ic)
  }

  function Plugin(): (p: FormatterPlugin)
    ensures p.name == "ic"
  {
    FormatterPlugin(Name, CanFormat, Format)
  }

  /** A dashed number formatted again in the same style is unchanged, and
      the bare style recovers the plain twelve digits from it. */
  lemma ReformatDashed(v: Value)
    requires !IsEmpty(v) && |DigitsOnly(ToStr(v))| == 12
    ensures Format(v, [VStr("dashed")]).Done?
    ensures var d := Format(v, [VStr("dashed")]).value;
      && Format(VStr(d), [VStr("dashed")]).value == d
      && Format(VStr(d), []).value == DigitsOnly(ToStr(v))
  {
    DigitsOfArray();
    var d := Format(v, [VStr("dashed")]).value;
    assert d[0] != '0' || |d| > 1;
    assert !IsEmpty(VStr(d));
  }

  /** Masking can not be undone: the masked text has only six digits, so
      formatting it again returns it as it is. */
  lemma MaskedIsFinal(v: Value, options: seq<Value>)
    requires !IsEmpty(v) && |DigitsOnly(ToStr(v))| == 12
    ensures Format(v, [VStr("masked")]).Done?
    ensures var m := Format(v, [VStr("masked")]).value;
      |DigitsOnly(m)| == 6 && Format(VStr(m), options).value == m
  {
    DigitsOfArray();
    var m := Format(v, [VStr("masked")]).value;
    assert |m| == 14;
    assert !IsEmpty(VStr(m));
  }

  lemma DigitsExample(s: string)
    requires s == "900101011234"
    ensures AllDigits(s) && DigitsOnly(s) == s
  {
    DigitsOnlyOfDigits(s);
  }

  lemma DashedExample(s: string)
    requires s == "900101011234"
    ensures Dashed(s) == "900101-01-1234" && Masked(s) == "900101-**-****"
  {
  }

  /** Twelve digits given as a string are laid out in the requested style. */
  lemma FormatDigits(s: string, options: seq<Value>)
    requires |s| == 12 && AllDigits(s)
    ensures Format(VStr(s), options) == Done(
      if Style(options) == VStr("masked") then Masked(s)
      else if Style(options) == VStr("dashed") then Dashed(s)
      else s)
  {
    DigitsOnlyOfDigits(s);
    assert s != "" && s != "0";
    assert !IsEmpty(VStr(s));
  }

  lemma PlainExample(v: Value)
    requires v == VStr("900101011234")
    ensures Format(v, []) == Done("900101011234")
  {
    DigitsExample(v.s);
    FormatDigits(v.s, []);
  }

  lemma DashedStyleExample(v: Value)
    requires v == VStr("900101011234")
    ensures Format(v, [VStr("dashed")]) == Done("900101-01-1234")
  {
    DigitsExample(v.s);
    DashedExample(v.s);
    FormatDigits(v.s, [VStr("dashed")]);
  }

  lemma MaskedStyleExample(v: Value)
    requires v == VStr("900101011234")
    ensures Format(v, [VStr("masked")]) == Done("900101-**-****")
  {
    DigitsExample(v.s);
    DashedExample(v.s);
    FormatDigits(v.s, [VStr("masked")]);
  }

  /** Too few digits: the value comes back as given. */
  lemma ShortExample(v: Value)
    requires v == VStr("12-345")
    ensures Format(v, [VStr("dashed")]) == Done("12-345")
  {
    DigitsOnlyJoin("12", "-", "345");
    DigitsOnlyOfDigits("345");
    assert "12" + "-" + "345" == v.s;
  }
}
