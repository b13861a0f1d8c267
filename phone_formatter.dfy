/** examples/Formatter/PhoneFormatter.php: a sample formatter that keeps the
    digits of a phone number and lays them out for a country, Malaysia by
    default or the United States. */
module PhoneFormatter {
  import opened Values
  import opened PhpString
  import opened Contracts

  const Name: string := "phone"

  /** Strings and numbers. */
  predicate CanFormat(v: Value)
  {
    IsStringOrNumeric(v)
  }

  /** `$options[0] ?? 'MY'`. */
  function Country(options: seq<Value>): (c: Value)
    ensures c != VNull
    ensures options == [] ==> c == VStr("MY")
  {
    if options == [] then VStr("MY") else Coalesce(options[0], VStr("MY"))
  }

  /** Ten digits starting `01`: `01-2345 6789`. */
  predicate IsLocalNumber(n: string)
  {
    |n| == 10 && HasPrefix(n, "01")
  }

  /** Eleven digits starting `601`. */
  predicate IsInternationalNumber(n: string)
  {
    |n| == 11 && HasPrefix(n, "601")
  }

  /** `(\d{2})(\d{4})(\d{4})` replaced by `$1-$2 $3`. */
  function LocalLayout(n: string): string
    requires |n| == 10
  {
    n[..2] + "-" + n[2..6] + " " + n[6..]
  }

  /** `(\d)(\d{2})(\d{4})(\d{4})` replaced by `$1 $2-$3 $4`, after `+6`. */
  function InternationalLayout(n: string): string
    requires |n| == 11
  {
    "+6" + n[..1] + " " + n[1..3] + "-" + n[3..7] + " " + n[7..]
  }

  /** `(\d{3})(\d{3})(\d{4})` replaced by `($1) $2-$3`. */
  function USLayout(n: string): string
    requires |n| == 10
  {
    "(" + n[..3] + ") " + n[3..6] + "-" + n[6..]
  }

  /** Digits, then one non-digit separator, then a string whose digit
      filter is known. */
  lemma Group(x: string, sep: string, y: string, dy: string)
    requires AllDigits(x) && DigitsOnly(sep) == [] && DigitsOnly(y) == dy
    ensures DigitsOnly(x + sep + y) == x + dy
  {
    DigitsOnlyConcat(x + sep, y);
    DigitsOnlyConcat(x, sep);
    DigitsOnlyOfDigits(x);
    assert DigitsOnly(x + sep) == x;
  }

  lemma SeparatorsHaveNoDigits()
    ensures DigitsOnly(" ") == [] && DigitsOnly("-") == [] && DigitsOnly(") ") == []
  {
    DigitsOnlyNoDigits(" ");
    DigitsOnlyNoDigits("-");
    DigitsOnlyNoDigits(") ");
  }

  /** The last group on its own. */
  lemma LastGroup(x: string)
    requires AllDigits(x)
    ensures DigitsOnly(x) == x
  {
    DigitsOnlyOfDigits(x);
  }

  /** The local layout only inserts a dash and a space. */
  lemma LocalLayoutDigits(n: string)
    requires |n| == 10 && AllDigits(n)
    ensures var r := LocalLayout(n);
      |r| == 12 && r[2] == '-' && r[7] == ' ' && DigitsOnly(r) == n
  {
    var a, b, c := n[..2], n[2..6], n[6..];
    SeparatorsHaveNoDigits();
    LastGroup(c);
    Group(b, " ", c, c);
    Group(a, "-", b + " " + c, b + c);
    assert LocalLayout(n) == a + "-" + (b + " " + c);
    assert n == a + (b + c);
    LocalLayoutShape(n);
  }

  lemma LocalLayoutShape(n: string)
    requires |n| == 10
    ensures var r := LocalLayout(n);
      |r| == 12 && r[2] == '-' && r[7] == ' '
  {
  }

  /** The international layout inserts separators and a `+6` in front. */
  lemma InternationalLayoutDigits(n: string)
    requires |n| == 11 && AllDigits(n)
    ensures var r := InternationalLayout(n);
      && |r| == 16 && r[..2] == "+6" && r[3] == ' ' && r[6] == '-' && r[11] == ' '
      && DigitsOnly(r) == "6" + n
  {
    InternationalLayoutShape(n);
    InternationalLayoutFilter(n);
  }

  lemma InternationalLayoutShape(n: string)
    requires |n| == 11
    ensures var r := InternationalLayout(n);
      |r| == 16 && r[..2] == "+6" && r[3] == ' ' && r[6] == '-' && r[11] == ' '
  {
  }

  lemma InternationalLayoutFilter(n: string)
    requires |n| == 11 && AllDigits(n)
    ensures DigitsOnly(InternationalLayout(n)) == "6" + n
  {
    var a, b, c, d := n[..1], n[1..3], n[3..7], n[7..];
    var w := a + " " + (b + "-" + (c + " " + d));
    InternationalGroups(a, b, c, d);
    assert n == a + (b + (c + d));
    assert InternationalLayout(n) == "+6" + w;
    PlusSix(w);
  }

  lemma InternationalGroups(a: string, b: string, c: string, d: string)
    requires AllDigits(a) && AllDigits(b) && AllDigits(c) && AllDigits(d)
    ensures DigitsOnly(a + " " + (b + "-" + (c + " " + d))) == a + (b + (c + d))
  {
    SeparatorsHaveNoDigits();
    LastGroup(d);
    Group(c, " ", d, d);
    Group(b, "-", c + " " + d, c + d);
    Group(a, " ", b + "-" + (c + " " + d), b + (c + d));
  }

  /** The `+` is dropped by the filter, the `6` is kept. */
  lemma PlusSix(w: string)
    ensures DigitsOnly("+6" + w) == "6" + DigitsOnly(w)
  {
    var s := "+6" + w;
    assert s[0] == '+' && s[1..] == "6" + w;
    var t := "6" + w;
    assert t[0] == '6' && t[1..] == w;
  }

  /** The United States layout only adds brackets, a space and a dash. */
  lemma USLayoutDigits(n: string)
    requires |n| == 10 && AllDigits(n)
    ensures var r := USLayout(n);
      && |r| == 14 && r[0] == '(' && r[4] == ')' && r[5] == ' ' && r[9] == '-'
      && DigitsOnly(r) == n
  {
    USLayoutShape(n);
    USLayoutFilter(n);
  }

  lemma USLayoutShape(n: string)
    requires |n| == 10
    ensures var r := USLayout(n);
      |r| == 14 && r[0] == '(' && r[4] == ')' && r[5] == ' ' && r[9] == '-'
  {
  }

  lemma USLayoutFilter(n: string)
    requires |n| == 10 && AllDigits(n)
    ensures DigitsOnly(USLayout(n)) == n
  {
    var a, b, c := n[..3], n[3..6], n[6..];
    var w := a + ") " + (b + "-" + c);
    SeparatorsHaveNoDigits();
    LastGroup(c);
    Group(b, "-", c, c);
    Group(a, ") ", b + "-" + c, b + c);
    assert USLayout(n) == "(" + w;
    OpenBracket(w);
    assert n == a + (b + c);
  }

  /** The opening bracket is dropped by the filter. */
  lemma OpenBracket(w: string)
    ensures DigitsOnly("(" + w) == DigitsOnly(w)
  {
    var s := "(" + w;
    assert s[0] == '(' && s[1..] == w;
  }

  /** The Malaysian layouts. The international one prefixes `+6` to the
      whole number, country code included. Any other digit string is
      returned as it is. */
  function FormatMalaysian(n: string): (r: string)
    requires AllDigits(n)
    ensures IsLocalNumber(n) ==>
      |r| == 12 && r[2] == '-' && r[7] == ' ' && DigitsOnly(r) == n
    ensures IsInternationalNumber(n) ==>
      && |r| == 16 && r[..2] == "+6" && r[3] == ' ' && r[6] == '-' && r[11] == ' '
      && DigitsOnly(r) == "6" + n
    ensures !IsLocalNumber(n) && !IsInternationalNumber(n) ==> r == n
  {
    if IsLocalNumber(n) then
      LocalLayoutDigits(n);
      LocalLayout(n)
    else if IsInternationalNumber(n) then
      InternationalLayoutDigits(n);
      InternationalLayout(n)
    else n
  }

  /** The United States layout for ten digits, `(555) 123-4567`; any other
      digit string is returned as it is. */
  function FormatUS(n: string): (r: string)
    requires AllDigits(n)
    ensures |n| == 10 ==>
      && |r| == 14 && r[0] == '(' && r[4] == ')' && r[5] == ' ' && r[9] == '-'
      && DigitsOnly(r) == n
    ensures |n| != 10 ==> r == n
  {
    if |n| == 10 then
      USLayoutDigits(n);
      USLayout(n)
    else n
  }

  /** An empty value (`null`, `""`, `"0"`, `0`, ...) gives `N/A`. A
      non-empty array or an object throws: `preg_replace` refuses the object,
      and the array it returns for an array is refused as a `string`.
      Otherwise the digits of the value are laid out for the country; no
      digit is lost and none is added, except the `6` of the `+6` prefix. An
      unknown country gives the bare digits. */
  function Format(v: Value, options: seq<Value>): (r: Outcome<string>)
    ensures r.Threw? <==> !IsEmpty(v) && (v.VArr? || v.VObj?)
    ensures CanFormat(v) ==> r.Done?
    ensures IsEmpty(v) ==> r == Done("N/A")
    ensures !IsEmpty(v) && r.Done? ==>
      var digits := DigitsOnly(ToStr(v));
      || DigitsOnly(r.value) == digits
      || (Country(options) == VStr("MY") && IsInternationalNumber(digits)
          && DigitsOnly(r.value) == "6" + digits)
    ensures !IsEmpty(v) && r.Done? && Country(options) != VStr("MY") && Country(options) != VStr("US") ==>
      r.value == DigitsOnly(ToStr(v))
  {
    if IsEmpty(v) then Done("N/A")
    else if v.VArr? || v.VObj? then Threw
    else
      var cleaned := DigitsOnly(ToStr(v));
      DigitsOnlyOfDigits(cleaned);
      var c := Country(options);
      if c == VStr("MY") then Done(FormatMalaysian(cleaned))
      else if c == VStr("US") then Done(FormatUS(cleaned))
      else Done(cleaned)
  }

  function Plugin(): (p: FormatterPlugin)
    ensures p.name == "phone"
  {
    FormatterPlugin(Name, CanFormat, Format)
  }

  /** A number laid out in the local Malaysian form comes back unchanged
      when it is formatted again. */
  lemma ReformatLocal(v: Value)
    requires !IsEmpty(v) && IsLocalNumber(DigitsOnly(ToStr(v)))
    ensures Format(v, []).Done?
    ensures Format(VStr(Format(v, []).value), []) == Format(v, [])
  {
    DigitsOfArray();
    var r := Format(v, []).value;
    assert |r| == 12;
    DigitsOnlyOfDigits(DigitsOnly(ToStr(v)));
  }

  /** The same for the United States layout. */
  lemma ReformatUS(v: Value)
    requires !IsEmpty(v) && |DigitsOnly(ToStr(v))| == 10
    ensures Format(v, [VStr("US")]).Done?
    ensures Format(VStr(Format(v, [VStr("US")]).value), [VStr("US")]) == Format(v, [VStr("US")])
  {
    DigitsOfArray();
    var r := Format(v, [VStr("US")]).value;
    assert |r| == 14;
    DigitsOnlyOfDigits(DigitsOnly(ToStr(v)));
  }

  /** `"0"` is empty to PHP, so it is not treated as a number. */
  lemma ZeroIsNotAvailable(options: seq<Value>)
    ensures Format(VStr("0"), options) == Done("N/A")
    ensures Format(VInt(0), options) == Done("N/A")
  {
  }

  lemma DigitsExample(s: string)
    requires s == "0123456789" || s == "60123456789" || s == "5551234567"
    ensures AllDigits(s) && DigitsOnly(s) == s
  {
    DigitsOnlyOfDigits(s);
  }

  lemma LocalLayoutExample(s: string)
    requires s == "0123456789"
    ensures IsLocalNumber(s) && LocalLayout(s) == "01-2345 6789"
  {
    assert s[..2] == "01";
  }

  lemma InternationalLayoutExample(s: string)
    requires s == "60123456789"
    ensures !IsLocalNumber(s) && IsInternationalNumber(s)
    ensures InternationalLayout(s) == "+66 01-2345 6789"
  {
    assert s[..3] == "601";
  }

  lemma USLayoutExample(s: string)
    requires s == "5551234567"
    ensures USLayout(s) == "(555) 123-4567"
  {
  }

  lemma LocalExample(v: Value)
    requires v == VStr("0123456789")
    ensures Format(v, []) == Done("01-2345 6789")
  {
    DigitsExample(v.s);
    LocalLayoutExample(v.s);
  }

  /** `60123456789` becomes `+66 01-2345 6789`: the country code's `6`
      appears twice. */
  lemma InternationalExample(v: Value)
    requires v == VStr("60123456789")
    ensures Format(v, [VStr("MY")]) == Done("+66 01-2345 6789")
  {
    DigitsExample(v.s);
    InternationalLayoutExample(v.s);
  }

  lemma USExample(v: Value)
    requires v == VStr("5551234567")
    ensures Format(v, [VStr("US")]) == Done("(555) 123-4567")
  {
    DigitsExample(v.s);
    USLayoutExample(v.s);
  }
}
