/** src/Contexts/UserContext.php: the built-in context that projects a user
    object into placeholders (`user.name`, `user.full_name`,
    `user.initials`, ...). The translation helper `__()` and Laravel's
    `route()` are parameters of the mapping. */
module UserContext {
  import opened Values
  import opened PhpString
  import opened PhpArray
  import opened Contracts

  const Name: string := "user"

  /** The properties whose presence makes an object user-like, in the order
      they are tried. */
  const UserProperties: seq<string> := ["id", "name", "email", "first_name", "last_name"]

  /** `getSupportedTypes`: three framework classes, then the generic
      `object` as the catch-all. */
  function SupportedTypes(): (r: seq<string>)
    ensures |r| == 4 && r[3] == "object"
    ensures forall i :: 0 <= i < 3 ==> '\\' in r[i]
  {
    ["App\\Models\\User", "Illuminate\\Foundation\\Auth\\User", "Illuminate\\Database\\Eloquent\\Model", "object"]
  }

  /** `property_exists($object, $p)` on an object: the property is declared
      or was set, even to null. */
  predicate HasProperty(v: Value, p: string)
    ensures HasProperty(v, p) <==> Isset(v, p) || (v.VObj? && p in v.fields && v.fields[p] == VNull)
  {
    v.VObj? && p in v.fields
  }

  /** Some user property is present. */
  predicate UserLike(v: Value)
  {
    exists i :: 0 <= i < |UserProperties| && HasProperty(v, UserProperties[i])
  }

  /** `isUserLike`: tries the properties in order and stops at the first
      one present. */
  method IsUserLike(v: Value) returns (b: bool)
    requires v.VObj?
    ensures b <==> UserLike(v)
  {
    var props := UserProperties;
    var i := 0;
    while i < |props|
      invariant 0 <= i <= |props|
      invariant forall j :: 0 <= j < i ==> !HasProperty(v, props[j])
    {
      if props[i] in v.fields {
        return true;
      }
      i := i + 1;
    }
    return false;
  }

  /** `canProcess`: an object with a user property. */
  predicate CanProcess(v: Value)
  {
    v.VObj? && UserLike(v)
  }

  /** Non-objects are never processed; an object is processed exactly when
      one of the five user properties is present. */
  lemma CanProcessCases(v: Value)
    ensures !v.VObj? ==> !CanProcess(v)
    ensures v.VObj? ==> (CanProcess(v) <==>
      exists p :: p in UserProperties && p in v.fields)
  {
    if v.VObj? && (exists p :: p in UserProperties && p in v.fields) {
      var p :| p in UserProperties && p in v.fields;
      var i :| 0 <= i < |UserProperties| && UserProperties[i] == p;
      assert HasProperty(v, UserProperties[i]);
    }
  }

  lemma CanProcessExamples()
    ensures CanProcess(VObj(map["name" := VStr("John Doe"), "email" := VStr("john@example.com")]))
    ensures !CanProcess(VObj(map["unrelated_property" := VStr("value")]))
    ensures !CanProcess(VStr("string")) && !CanProcess(VArr([])) && !CanProcess(VNull)
  {
    var u := VObj(map["name" := VStr("John Doe"), "email" := VStr("john@example.com")]);
    assert HasProperty(u, UserProperties[1]);
    var n := VObj(map["unrelated_property" := VStr("value")]);
    forall i | 0 <= i < |UserProperties| ensures !HasProperty(n, UserProperties[i]) {
      assert UserProperties[i] != "unrelated_property";
    }
  }

  /** `($user->p ?? '')` as a string. */
  function PropOrEmpty(user: Value, p: string): string
  {
    ToStr(Coalesce(Prop(user, p), VStr("")))
  }

  /** The `full_name` closure: first and last name joined by a space and
      trimmed; a missing part counts as empty. */
  function FullName(user: Value): (r: string)
    ensures r != [] ==> r[0] !in Whitespace && r[|r| - 1] !in Whitespace
  {
    var s := PropOrEmpty(user, "first_name") + " " + PropOrEmpty(user, "last_name");
    TrimCharsShape(s, Whitespace);
    Trim(s)
  }

  /** A string with no whitespace at either end. */
  predicate Clean(s: string)
  {
    s != [] && s[0] !in Whitespace && s[|s| - 1] !in Whitespace
  }

  /** With both parts present and clean, the full name is the two parts
      joined by one space. */
  lemma FullNameOfParts(user: Value, first: string, last: string)
    requires Prop(user, "first_name") == VStr(first) && Clean(first)
    requires Prop(user, "last_name") == VStr(last) && Clean(last)
    ensures FullName(user) == first + " " + last
  {
    var s := first + " " + last;
    assert s[0] == first[0] && s[|s| - 1] == last[|last| - 1];
    TrimCharsClean(s, Whitespace);
  }

  /** With the last name missing, the trailing space is trimmed away. */
  lemma FullNameFirstOnly(user: Value, first: string)
    requires Prop(user, "first_name") == VStr(first) && Clean(first)
    requires Prop(user, "last_name") == VNull
    ensures FullName(user) == first
  {
    assert PropOrEmpty(user, "first_name") == first;
    assert PropOrEmpty(user, "last_name") == "";
    var s := first + " " + "";
    assert s == first + " ";
    assert s[0] == first[0];
    assert TrimLeft(s, Whitespace) == s;
    assert s[..|s| - 1] == first;
    assert TrimRight(s, Whitespace) == TrimRight(first, Whitespace);
    TrimCharsClean(first, Whitespace);
  }

  /** With neither part, the full name is empty. */
  lemma FullNameNone(user: Value)
    requires Prop(user, "first_name") == VNull && Prop(user, "last_name") == VNull
    ensures FullName(user) == ""
  {
    assert PropOrEmpty(user, "first_name") == "";
    assert PropOrEmpty(user, "last_name") == "";
    var s := "" + " " + "";
    assert s == [' '];
    var l := TrimLeft(s, Whitespace);
    assert l == [];
  }

  /** The name the initials are taken from: first and last name when both
      are set, else `name` when set, else nothing. */
  function NameSource(user: Value): (n: Value)
    ensures Isset(user, "first_name") && Isset(user, "last_name") ==>
      n == VStr(ToStr(Prop(user, "first_name")) + " " + ToStr(Prop(user, "last_name")))
    ensures !(Isset(user, "first_name") && Isset(user, "last_name")) && Isset(user, "name") ==>
      n == Prop(user, "name")
    ensures !(Isset(user, "first_name") && Isset(user, "last_name")) && !Isset(user, "name") ==>
      n == VStr("")
  {
    if Isset(user, "first_name") && Isset(user, "last_name") then
      VStr(ToStr(Prop(user, "first_name")) + " " + ToStr(Prop(user, "last_name")))
    else if Isset(user, "name") then Prop(user, "name")
    else VStr("")
  }

  /** What one word adds: its first byte, upper-cased; an empty word (and
      the word `0`, which PHP also calls empty) adds nothing. */
  function WordInitial(w: string): (r: string)
    ensures |r| <= 1
    ensures r != [] ==> w != [] && r[0] == UpperChar(w[0])
  {
    if IsEmpty(VStr(w)) then "" else StrToUpper(w[..1])
  }

  /** The initials of a word list, defined word by word from the back. */
  function WordsInitials(ws: seq<string>): (r: string)
    ensures |r| <= |ws|
    decreases |ws|
  {
    if ws == [] then "" else WordsInitials(ws[..|ws| - 1]) + WordInitial(ws[|ws| - 1])
  }

  /** The initials the `initials` closure yields. */
  function Initials(user: Value): string
  {
    var n := NameSource(user);
    if IsEmpty(n) then "" else WordsInitials(Explode(" ", Trim(ToStr(n))))
  }

  /** `generateInitials`: picks the name, splits it on spaces and collects
      the upper-cased first byte of every non-empty word. */
  method GenerateInitials(user: Value) returns (initials: string)
    ensures initials == Initials(user)
  {
    var name: Value := VStr("");
    if Isset(user, "first_name") && Isset(user, "last_name") {
      name := VStr(ToStr(Prop(user, "first_name")) + " " + ToStr(Prop(user, "last_name")));
    } else if Isset(user, "name") {
      name := Prop(user, "name");
    }
    assert name == NameSource(user);
    if IsEmpty(name) {
      initials := "";
    } else {
      initials := CollectInitials(Explode(" ", Trim(ToStr(name))));
    }
  }

  /** The `foreach` of `generateInitials` over the words of the name. */
  method CollectInitials(words: seq<string>) returns (initials: string)
    ensures initials == WordsInitials(words)
  {
    initials := "";
    var i := 0;
    while i < |words|
      invariant 0 <= i <= |words|
      invariant initials == WordsInitials(words[..i])
    {
      var word := words[i];
      if !IsEmpty(VStr(word)) {
        initials := initials + StrToUpper(word[..1]);
      }
      assert words[..i + 1][..i] == words[..i];
      i := i + 1;
    }
    assert words[..|words|] == words;
  }

  /** Initials distribute over a split word list. */
  lemma {:induction false} WordsInitialsAppend(ws: seq<string>, vs: seq<string>)
    ensures WordsInitials(ws + vs) == WordsInitials(ws) + WordsInitials(vs)
    decreases |vs|
  {
    if vs == [] {
      assert ws + vs == ws;
    } else {
      var front, last := vs[..|vs| - 1], vs[|vs| - 1];
      assert vs == front + [last];
      assert ws + vs == (ws + front) + [last];
      WordsInitialsSnoc(ws + front, last);
      WordsInitialsAppend(ws, front);
      WordsInitialsSnoc(front, last);
      Associative(WordsInitials(ws), WordsInitials(front), WordInitial(last));
    }
  }

  /** One word more at the end adds its initial. */
  lemma WordsInitialsSnoc(ws: seq<string>, w: string)
    ensures WordsInitials(ws + [w]) == WordsInitials(ws) + WordInitial(w)
  {
    var s := ws + [w];
    assert s[..|s| - 1] == ws && s[|s| - 1] == w;
  }

  /** Every initial is the upper-cased first byte of one of the words, and
      none is a lower-case letter. */
  lemma {:induction false} InitialsAreUpper(ws: seq<string>)
    ensures forall i :: 0 <= i < |WordsInitials(ws)| ==> !IsLowerAscii(WordsInitials(ws)[i])
    decreases |ws|
  {
    if ws != [] {
      InitialsAreUpper(ws[..|ws| - 1]);
      var r := WordsInitials(ws);
      var p := WordsInitials(ws[..|ws| - 1]);
      var w := WordInitial(ws[|ws| - 1]);
      forall i | 0 <= i < |r| ensures !IsLowerAscii(r[i]) {
        if i < |p| {
          assert r[i] == p[i];
        } else {
          assert r[i] == w[0];
        }
      }
    }
  }

  /** A word that PHP's `empty` accepts: not `""` and not `"0"`. */
  predicate IsWord(w: string)
  {
    Clean(w) && ' ' !in w && w != "0"
  }

  /** The initials of two words are their two initials. */
  lemma WordsInitialsPair(a: string, b: string)
    ensures WordsInitials([a, b]) == WordInitial(a) + WordInitial(b)
  {
    var ws := [a, b];
    assert ws[..1] == [a];
    assert [a][..0] == [];
  }

  /** A clean name of two words splits into those words. */
  lemma SplitTwoWords(first: string, last: string)
    requires IsWord(first) && IsWord(last)
    ensures Explode(" ", Trim(first + " " + last)) == [first, last]
  {
    var s := first + " " + last;
    assert s[0] == first[0] && s[|s| - 1] == last[|last| - 1];
    TrimCharsClean(s, Whitespace);
    ExplodeSplit(' ', first, last);
    ExplodeAbsent(' ', last);
  }

  /** With both names set, the initials come from `first last`. */
  lemma InitialsFromBothNames(user: Value, first: string, last: string)
    requires Prop(user, "first_name") == VStr(first)
    requires Prop(user, "last_name") == VStr(last)
    ensures Initials(user) == WordsInitials(Explode(" ", Trim(first + " " + last)))
  {
    var n := NameSource(user);
    assert n == VStr(first + " " + last);
    assert !IsEmpty(n) by {
      assert n.s[|first|] == ' ';
    }
  }

  /** A user with a clean first and last name has the two upper-cased first
      letters as initials. */
  lemma InitialsOfFirstAndLast(user: Value, first: string, last: string)
    requires Prop(user, "first_name") == VStr(first) && IsWord(first)
    requires Prop(user, "last_name") == VStr(last) && IsWord(last)
    ensures Initials(user) == [UpperChar(first[0]), UpperChar(last[0])]
  {
    InitialsFromBothNames(user, first, last);
    SplitTwoWords(first, last);
    TwoWordInitials(first, last);
  }

  lemma TwoWordInitials(first: string, last: string)
    requires IsWord(first) && IsWord(last)
    ensures WordsInitials([first, last]) == [UpperChar(first[0]), UpperChar(last[0])]
  {
    WordsInitialsPair(first, last);
    WordInitialOfWord(first);
    WordInitialOfWord(last);
  }

  lemma WordInitialOfWord(w: string)
    requires IsWord(w)
    ensures WordInitial(w) == [UpperChar(w[0])]
  {
    assert !IsEmpty(VStr(w));
    assert w[..1] == [w[0]];
  }

  /** The user of the context test: the full name is `John Doe`. */
  lemma FullNameExample(user: Value)
    requires user == VObj(map["id" := VInt(1), "name" := VStr("John Doe"),
      "email" := VStr("john@example.com"), "first_name" := VStr("John"), "last_name" := VStr("Doe")])
    ensures FullName(user) == "John Doe"
  {
    TestUserParts(user);
    JohnDoeClean();
    FullNameOfParts(user, "John", "Doe");
    JoinJohnDoe();
  }

  lemma JoinJohnDoe()
    ensures "John" + " " + "Doe" == "John Doe"
  {
  }

  lemma TestUserParts(user: Value)
    requires user == VObj(map["id" := VInt(1), "name" := VStr("John Doe"),
      "email" := VStr("john@example.com"), "first_name" := VStr("John"), "last_name" := VStr("Doe")])
    ensures Prop(user, "first_name") == VStr("John") && Prop(user, "last_name") == VStr("Doe")
  {
  }

  lemma JohnDoeClean()
    ensures Clean("John") && Clean("Doe")
  {
    assert "John"[0] == 'J' && "John"[3] == 'n';
    assert "Doe"[0] == 'D' && "Doe"[2] == 'e';
  }

  /** John Doe has the initials `JD`. */
  lemma InitialsExample(user: Value)
    requires user == VObj(map["first_name" := VStr("John"), "last_name" := VStr("Doe")])
    ensures Initials(user) == "JD"
  {
    InitialsOfFirstAndLast(user, "John", "Doe");
  }

  /** Without any name field the initials are empty. */
  lemma InitialsWithoutName(user: Value)
    requires !Isset(user, "name")
    requires !Isset(user, "first_name") || !Isset(user, "last_name")
    ensures Initials(user) == ""
  {
  }

  /** `generateProfileUrl`: the `profile.show` route for `$user->id ?? 0`
      when a route helper is there and does not throw, else
      `/profile/<id>` with `unknown` for a missing id. */
  function ProfileUrl(user: Value, route: Option<Value -> Outcome<string>>): (r: string)
    ensures route.None? ==> r == "/profile/" + ToStr(Coalesce(Prop(user, "id"), VStr("unknown")))
  {
    if route.Some? && route.value(Coalesce(Prop(user, "id"), VInt(0))).Done? then
      route.value(Coalesce(Prop(user, "id"), VInt(0))).value
    else "/profile/" + ToStr(Coalesce(Prop(user, "id"), VStr("unknown")))
  }

  /** `$user->display_name ?? $user->name ?? $user->email ?? __('Unknown User')`. */
  function DisplayName(user: Value, translate: string -> string): (r: Value)
    ensures r != VNull
    ensures Isset(user, "display_name") ==> r == Prop(user, "display_name")
    ensures !Isset(user, "display_name") && !Isset(user, "name") && !Isset(user, "email") ==>
      r == VStr(translate("Unknown User"))
  {
    Coalesce(Prop(user, "display_name"),
      Coalesce(Prop(user, "name"),
        Coalesce(Prop(user, "email"), VStr(translate("Unknown User")))))
  }

  /** `is_verified`: the translated `Yes` when `email_verified_at` is not
      empty, else the translated `No`. */
  function IsVerified(user: Value, translate: string -> string): (r: Value)
    ensures r == VStr(translate("Yes")) || r == VStr(translate("No"))
    ensures !Isset(user, "email_verified_at") ==> r == VStr(translate("No"))
    ensures Prop(user, "email_verified_at") == VBool(true) ==> r == VStr(translate("Yes"))
  {
    if !IsEmpty(Prop(user, "email_verified_at")) then VStr(translate("Yes")) else VStr(translate("No"))
  }

  const MappingKeys: seq<string> := [
    "id", "name", "email", "first_name", "last_name", "full_name", "initials",
    "avatar", "profile_photo", "phone", "created_at", "updated_at",
    "email_verified_at", "is_verified", "profile_url", "display_name"]

  /** The rule `getMapping` gives each of its keys. */
  function RuleFor(k: string, translate: string -> string, route: Option<Value -> Outcome<string>>): Rule
  {
    if k == "full_name" then ClosureRule(u => Done(VStr(FullName(u))))
    else if k == "initials" then ClosureRule(u => Done(VStr(Initials(u))))
    else if k == "is_verified" then ClosureRule(u => Done(IsVerified(u, translate)))
    else if k == "profile_url" then ClosureRule(u => Done(VStr(ProfileUrl(u, route))))
    else if k == "display_name" then ClosureRule(u => Done(DisplayName(u, translate)))
    else if k == "profile_photo" then PathRule("profile_photo_path")
    else if k == "created_at" || k == "updated_at" || k == "email_verified_at" then
      ConfigRule(Some(k), Some("date"))
    else PathRule(k)
  }

  /** `getMapping`: sixteen output keys in this order. Seven are property
      paths (`profile_photo` reads `profile_photo_path`), the three dates go
      through the `date` formatter, and the rest are closures. */
  function Mapping(translate: string -> string, route: Option<Value -> Outcome<string>>): (m: PArray<Rule>)
    ensures m.keys == MappingKeys
    ensures forall k :: k in MappingKeys ==> m.entries[k] == RuleFor(k, translate, route)
  {
    MappingKeysDistinct();
    Arr(MappingKeys, map k | k in MappingKeys :: RuleFor(k, translate, route))
  }

  /** Seven keys read the property of the same name; `profile_photo`
      reads `profile_photo_path`. */
  lemma PathRules(translate: string -> string, route: Option<Value -> Outcome<string>>)
    ensures forall k :: k in ["id", "name", "email", "first_name", "last_name", "avatar", "phone"] ==>
      RuleFor(k, translate, route) == PathRule(k)
    ensures RuleFor("profile_photo", translate, route) == PathRule("profile_photo_path")
  {
  }

  /** The three timestamps go through the `date` formatter. */
  lemma DateRules(translate: string -> string, route: Option<Value -> Outcome<string>>)
    ensures forall k :: k in ["created_at", "updated_at", "email_verified_at"] ==>
      RuleFor(k, translate, route) == ConfigRule(Some(k), Some("date"))
  {
  }

  /** The full name and the initials are computed by closures. */
  lemma ClosureRules(translate: string -> string, route: Option<Value -> Outcome<string>>)
    ensures forall u :: RuleFor("full_name", translate, route).extract(u) == Done(VStr(FullName(u)))
    ensures forall u :: RuleFor("initials", translate, route).extract(u) == Done(VStr(Initials(u)))
    ensures forall k :: k in ["is_verified", "profile_url", "display_name"] ==>
      RuleFor(k, translate, route).ClosureRule?
  {
  }

  lemma MappingKeysDistinct()
    ensures Distinct(MappingKeys)
  {
    var ks := MappingKeys;
    forall i, j | 0 <= i < j < |ks| ensures ks[i] != ks[j] {
    }
  }

  /** The context plugin as the handler sees it. */
  function Plugin(translate: string -> string, route: Option<Value -> Outcome<string>>): (p: ContextPlugin)
    ensures p.name == "user" && p.mapping.keys == MappingKeys
    ensures forall v :: p.canProcess(v) == CanProcess(v)
  {
    ContextPlugin(Name, Mapping(translate, route), CanProcess, SupportedTypes())
  }
}
