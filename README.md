# placeholdify in Dafny

A model of the placeholder engine of the PHP package `cleaniquecoders/placeholdify`.

## What is modelled

**The handler, `src/PlaceholderHandler.php`.** It becomes the class `Handler.PlaceholderHandler`. The class has the same fields as the source:
- the placeholder store;
- the formatter registry;
- the context registry;
- the fallback text;
- the two delimiters.

Every public method is a Dafny method. Each method's `ensures` ties the new state, or the returned value, to a specification function in `HandlerSpec`:
- `Stored` for `add`;
- `Nullable` for `addNullable`;
- `DateValue` for `addDate`;
- `FormattedValue` for `addFormatted`;
- `Many` for `addMany`;
- `FromContext` for `addFromContext`;
- `UseContextSpec` for `useContext`;
- `ReplaceText` for `replace`;
- `RenderModifiers` for `replaceWithModifiers`.

The properties the library promises are lemmas about those functions. The class invariant `Valid()` says no stored placeholder is null; every method that writes the store keeps it.

**PHP arrays.** The store and the two registries are ordered PHP arrays, `PhpArray.PArray`: the keys in insertion order plus a table of entries.

**PHP values.** A value is a `Values.Value`. An object is its table of public properties, so `isset`, `??` and `empty` can be stated exactly.

**Plugins.** Formatter and context plugins (`Contracts`) are function values, because the handler does not see their code. A formatting call that throws yields `Threw`.

**The token scanner.** The scanner regular expression shared by both renderers, `start ([^end]+) end`, is the left-to-right function `TokenScanner.Tokenize`. Its round trip with `Untokenize` is proved.
- `preg_replace` with a constant is `Substitute(..., Constant(fallback))`.
- `preg_replace_callback` is `Substitute` with the callback `Resolver`.
- The loop of `ReplaceWithModifiers` hands each token's body to the method `ResolveToken`.

**Rescanning in simple mode.** `replaceWithModifiers` never scans a replacement text again. `replace` does, because it rewrites the whole text once per stored key, in insertion order. So a value that spells a later key's token is replaced again, and a leftover token inside an inserted value is swept to the fallback. The model follows the code.
- `HandlerSpec.ReplaceRescans` proves the rescan.
- `HandlerSpec.ModifiersDoNotRescan` proves that the modifier mode does not rescan.

**Formatters and the user context.** These are pure functions with their own modules:
- the slug, upper and lower formatters;
- the two sample formatters, phone and Malaysian IC;
- the user context.

They follow the source's expressions. The two loops of `UserContext.php`, in `generateInitials` and `isUserLike`, are methods proved against functions.

**The phone formatter's international case.** For an eleven-digit Malaysian number starting `601`, the formatter puts `+6` in front of all eleven digits. So `60123456789` becomes `+66 01-2345 6789`, with the country code's `6` twice. The model keeps this behaviour and states it (`PhoneFormatter.InternationalExample`).

**String functions.** The model uses these PHP functions, written out in `PhpString`: `str_replace`, `explode`, `implode`, `trim`, `strtoupper`, `strtolower` and `preg_replace('/[^0-9]/', '', ...)`. Their properties are proved there, including that `str_replace` equals `implode($rep, explode($search, $s))`.

## Model

| member | source | states |
|---|---|---|
| Values.IntToString | src/PlaceholderHandler.php:430 | The string cast of an integer is non-empty and starts with `-` exactly when the integer is negative. |
| Values.ToStr | src/PlaceholderHandler.php:430 | The `(string)` cast: a string is its own cast, and the cast is empty to PHP (`''` or `'0'`) exactly when the value is an empty scalar or an object. The empty array casts to `Array`. |
| Values.IsEmpty | examples/Formatter/PhoneFormatter.php:24 | `empty()` holds for exactly six values: null, false, 0, `''`, `'0'` and the empty array. An object is never empty. |
| Values.Isset | src/PlaceholderHandler.php:545 | `isset($v->{$p})` holds exactly when `v` is an object whose property `p` exists and is not null. |
| Values.Coalesce | src/PlaceholderHandler.php:154 | `a ?? b` is `a` when `a` is not null, otherwise `b`. |
| Values.IsStringOrNumeric | examples/Formatter/PhoneFormatter.php:19 | `is_string` or `is_numeric`, the guard of every modelled formatter: in this value model, the strings and the integers. |
| Values.Prop | src/PlaceholderHandler.php:538 | Reading a property gives a non-null value only when the value is an object that has that property, and then gives that property. |
| PhpArray.Put | src/PlaceholderHandler.php:154 | Writing a key stores its value and leaves every other entry alone. A new key goes to the end of the key order; an existing key keeps its place. |
| PhpArray.PutOverwrites | src/PlaceholderHandler.php:154 | Writing a key twice is the same as writing only the second value. |
| PhpArray.Remove | src/PlaceholderHandler.php:396 | `unset` removes exactly that key and keeps the other entries. The remaining keys are the old key order with that key dropped, so they keep their order; an absent key leaves the order as it was. |
| PhpArray.Without | src/PlaceholderHandler.php:396 | The key order without one key holds exactly the other keys. |
| PhpArray.RemoveKeepsOrder | src/PlaceholderHandler.php:396 | Unsetting the key at position `i` leaves the keys before it and the keys after it, in their order, with nothing between. |
| PhpArray.WithoutSplit | src/PlaceholderHandler.php:396 | Dropping a key that occurs once, between `p` and `q`, gives `p` followed by `q`. |
| PhpString.StrReplaceIsImplodeExplode | src/PlaceholderHandler.php:430 | `str_replace` with one search string equals `implode($rep, explode($search, $s))`, an independent definition. |
| PhpString.StrReplaceSelf | src/PlaceholderHandler.php:430 | Replacing a string by itself changes nothing. |
| PhpString.StrReplaceAbsent | src/PlaceholderHandler.php:430 | A subject that does not contain the search string is returned unchanged. |
| PhpString.StrReplaceOnce | src/PlaceholderHandler.php:430 | A single occurrence, surrounded by text without its first character, is replaced by the replacement. |
| PhpString.Explode | src/PlaceholderHandler.php:459 | `explode` always yields at least one piece. |
| PhpString.ImplodeExplode | src/PlaceholderHandler.php:459 | Joining the pieces of `explode` with the separator gives the original string back. |
| PhpString.ExplodePiecesFree | src/PlaceholderHandler.php:459 | No piece of `explode` contains the separator character. |
| PhpString.SplitFirst | src/PlaceholderHandler.php:451 | `explode($c, $s, 2)` gives the text before the first `c`, which holds no `c`, and the text after it; the two around `c` spell `s`. |
| PhpString.SplitFirstIsFirstPiece | src/PlaceholderHandler.php:451 | The first piece of the limited split is the first piece of the unlimited one. |
| PhpString.StrReplace | src/PlaceholderHandler.php:430 | `str_replace` with one search string, scanning left to right without rescanning inserted text. Its properties are the `StrReplace…` lemmas above. |
| PhpString.TrimLeft | src/Formatters/SlugFormatter.php:16 | Stripping from the left leaves a suffix that does not start with a stripped character; everything cut off was a stripped character. |
| PhpString.TrimRight | src/Formatters/SlugFormatter.php:16 | The same at the right end, leaving a prefix. |
| PhpString.TrimChars | src/Formatters/SlugFormatter.php:16 | `trim($s, $chars)`: the left strip, then the right strip. `TrimCharsShape` states its result. |
| PhpString.Trim | src/Formatters/SlugFormatter.php:14 | `trim($s)` with PHP's default whitespace list: space, tab, newline, carriage return, NUL and vertical tab. |
| PhpString.TrimCharsShape | src/Formatters/SlugFormatter.php:16 | `trim` keeps one slice of its input with neither end in the character list, and everything cut from either end is in the list. |
| PhpString.TrimCharsClean | src/Formatters/SlugFormatter.php:16 | A string whose ends are not in the character list is returned as it is. |
| PhpString.StrToUpper | src/Formatters/UpperFormatter.php:11 | `strtoupper` keeps the length and maps each character through the ASCII upper-case map. |
| PhpString.StrToLower | src/Formatters/LowerFormatter.php:11 | `strtolower` keeps the length and maps each character through the ASCII lower-case map. |
| PhpString.StrToLowerConcat | src/Formatters/SlugFormatter.php:14 | Lower-casing distributes over concatenation. |
| PhpString.DigitsOnly | examples/Formatter/PhoneFormatter.php:29 | The digit filter yields only digits and is no longer than its input. |
| PhpString.DigitsOnlyConcat | examples/Formatter/PhoneFormatter.php:29 | The digit filter distributes over concatenation. |
| PhpString.DigitsOnlyOfDigits | examples/Formatter/PhoneFormatter.php:29 | A string of digits is its own filter. |
| PhpString.DigitsOfArray | examples/Formatter/MalaysianICFormatter.php:28 | The cast of an array, `Array`, has no digits. |
| TokenScanner.Run | src/PlaceholderHandler.php:434 | `[^end]+` matches the longest prefix without an end-delimiter character: a prefix of the input with none of them, followed by one of them or by the end of the input. |
| TokenScanner.Tokenize | src/PlaceholderHandler.php:434 | Every token body the scanner finds is non-empty and free of end-delimiter characters, as the character class demands. |
| TokenScanner.TokenizeRoundTrip | src/PlaceholderHandler.php:434-435 | Scanning loses nothing: writing the pieces back, tokens with their delimiters, gives the template. |
| TokenScanner.Substitute | src/PlaceholderHandler.php:435 | `preg_replace_callback` over the scanned pieces: each token is replaced by what the callback makes of its body and literal text is copied. `SubstituteAppend` and `SubstituteTexts` state its properties. |
| TokenScanner.TokenizeLeadingToken | src/PlaceholderHandler.php:434 | A well-formed token at the front is matched as one token, and scanning resumes right after its end delimiter. |
| TokenScanner.TokenizeWithoutStart | src/PlaceholderHandler.php:434 | A text without the start delimiter has no token. |
| TokenScanner.TokenizePlainPrefix | src/PlaceholderHandler.php:434 | Text without the start delimiter's first character is passed through as literal text before scanning goes on. |
| TokenScanner.SubstituteAppend | src/PlaceholderHandler.php:447-485 | Substitution distributes over concatenated piece lists. |
| TokenScanner.SubstituteTexts | src/PlaceholderHandler.php:435 | Literal text comes out of substitution unchanged. |
| HandlerSpec.Stored | src/PlaceholderHandler.php:152-157 | `add` stores the value when it is not null, otherwise the call's fallback when that is not null, otherwise the handler's fallback. The stored value is never null. |
| HandlerSpec.Lookup | src/PlaceholderHandler.php:484 | `$this->placeholders[$k] ?? null` is the entry under `k`, or null when there is none. |
| HandlerSpec.Apply | src/PlaceholderHandler.php:364-370 | The registered wrapper returns the handler's fallback when the plugin's guard rejects the value. It throws exactly when the guard accepts and the formatter throws. Any result is a string. |
| HandlerSpec.DateValue | src/PlaceholderHandler.php:174-190 | `addDate` stores a non-null value. A null date stores the call's fallback, or else the handler's. |
| HandlerSpec.DateRejectedGivesHandlerFallback | src/PlaceholderHandler.php:174-190 | When the date formatter's guard rejects the date, the handler's fallback is stored and the call's own fallback is ignored. |
| HandlerSpec.DateThrowGivesFallback | src/PlaceholderHandler.php:185-187 | When the date formatter throws, `addDate` stores the call's fallback, or else the handler's, as for a null date. |
| HandlerSpec.Nullable | src/PlaceholderHandler.php:195-208 | `addNullable` stores a non-null value. |
| HandlerSpec.Present | src/PlaceholderHandler.php:198 | `$value !== null && $value !== ''`: neither null nor the empty string. `NullableChoice` uses it. |
| HandlerSpec.NullableChoice | src/PlaceholderHandler.php:195-208 | `addNullable` stores the first candidate that is neither null nor `''`, no earlier one being so. With no such candidate it stores the handler's fallback. |
| HandlerSpec.ManyStep | src/PlaceholderHandler.php:164-166 | `addMany` after one more key is one more `add` of that key's value. |
| HandlerSpec.Many | src/PlaceholderHandler.php:162-169 | The store after `addMany`: one `add` per given key, in order. `ManyStep` and `ManyEntry` state its properties. |
| HandlerSpec.ManyEntry | src/PlaceholderHandler.php:162-169 | After `addMany` each given key holds its value, or the fallback for a null. Any other key is as it was. |
| HandlerSpec.LazyValue | src/PlaceholderHandler.php:234-244 | `addLazy` stores a non-null value. A throwing callback stores the call's fallback, or else the handler's. |
| HandlerSpec.Conditional | src/PlaceholderHandler.php:249-254 | `addIf` stores the value when the condition holds and `elseValue` otherwise. Only a null becomes the fallback, so `''` is kept. |
| HandlerSpec.FormattedValue | src/PlaceholderHandler.php:213-229 | With no formatter of that name, `addFormatted` is `add($key, $value)`. With one, it stores a string, and the handler's fallback when the formatter throws. |
| HandlerSpec.Walk | src/PlaceholderHandler.php:544-550 | The dotted-path loop: each step needs an object with that property set, or the result is null. `WalkAppend` states its properties. |
| HandlerSpec.ObjectValue | src/PlaceholderHandler.php:535-553 | `getObjectValue`: a plain property, or a walk along the dotted path. `ObjectValueIsWalk` and `TwoPartPath` state its properties. |
| HandlerSpec.WalkAppend | src/PlaceholderHandler.php:544-550 | Walking a dotted path in two parts is walking it whole, so a failed step yields null from then on. |
| HandlerSpec.ObjectValueIsWalk | src/PlaceholderHandler.php:535-553 | The no-dot shortcut of `getObjectValue` agrees with the walk along `explode('.', $property)`. |
| HandlerSpec.TwoPartPath | src/PlaceholderHandler.php:541-552 | `a.b` reads property `b` of property `a`, null if either is missing. |
| HandlerSpec.Truthy | src/PlaceholderHandler.php:262 | A string is truthy to PHP exactly when it is not empty to PHP. |
| HandlerSpec.PlaceholderKey | src/PlaceholderHandler.php:262 | `$prefix ? "{$prefix}.{$key}" : $key`. `PlaceholderKeySuffix` and `PlaceholderKeyInjective` state its properties. |
| HandlerSpec.PlaceholderKeySuffix | src/PlaceholderHandler.php:262 | The mapping key ends its placeholder key, and is the whole placeholder key when the prefix is falsy. |
| HandlerSpec.PlaceholderKeyInjective | src/PlaceholderHandler.php:262 | Distinct mapping keys give distinct placeholder keys under the same prefix. |
| HandlerSpec.EntryValue | src/PlaceholderHandler.php:264-278 | Every mapping entry, whether path, array rule or closure, stores a non-null value. |
| HandlerSpec.PrefixedKeys | src/PlaceholderHandler.php:262 | The placeholder keys of a mapping, one per mapping key, in mapping order: `prefix.key`, or the bare key when the prefix is empty or `"0"`. |
| HandlerSpec.FromContext | src/PlaceholderHandler.php:259-282 | The store after `addFromContext`: one `EntryValue` per mapping key, stored under its `PlaceholderKey`, in mapping order. `FromContextOther` and `FromContextValue` state its properties. |
| HandlerSpec.FromContextOther | src/PlaceholderHandler.php:259-282 | `addFromContext` adds exactly the placeholder keys its mapping produces; any other placeholder is left as it was. |
| HandlerSpec.FromContextValue | src/PlaceholderHandler.php:259-282 | With distinct mapping keys, each mapping key's placeholder ends up holding that entry's value. |
| HandlerSpec.UseContextSpec | src/PlaceholderHandler.php:287-306 | The store after `useContext`. An unknown name, or a context object whose guard rejects the object, leaves it as it was. Otherwise the registered mapping goes through `FromContext`. The method `UseContext` is proved against it. |
| HandlerSpec.InstanceNames | src/PlaceholderHandler.php:339-349 | The listed names are exactly the registered names that hold a context object. |
| HandlerSpec.ReplaceKnown | src/PlaceholderHandler.php:428-431 | The `foreach` of `replace`: one `str_replace` per stored key, in insertion order, each on the text the previous one produced. |
| HandlerSpec.ReplaceText | src/PlaceholderHandler.php:425-438 | `replace`: `ReplaceKnown`, then every remaining token becomes the fallback. The lemmas below state its properties. |
| HandlerSpec.ReplaceWithoutStart | src/PlaceholderHandler.php:425-438 | A template without the start delimiter comes out of `replace` unchanged. |
| HandlerSpec.ReplaceOne | src/PlaceholderHandler.php:428-431 | In a store holding only that key, a known placeholder is replaced by its value's string form when neither the text around it nor the value holds the start delimiter. `ReplaceKnownKey` states the same for any store. |
| HandlerSpec.ReplaceKnownUnchanged | src/PlaceholderHandler.php:428-431 | When no stored key's placeholder occurs in the text, the key-by-key loop returns the text unchanged. |
| HandlerSpec.ReplaceKnownAt | src/PlaceholderHandler.php:428-431 | For the key at position `i` of any key list, with no earlier key's placeholder in the text and no start-delimiter character around the token or in its value, the loop replaces that token by the value's string form. |
| HandlerSpec.ReplaceKnownFirst | src/PlaceholderHandler.php:428-431 | Keys whose placeholders do not occur change nothing, and the token's own key then puts its value in. |
| HandlerSpec.ReplaceWithoutFirstChar | src/PlaceholderHandler.php:430 | A search string whose first character is absent from the subject leaves the subject unchanged. |
| HandlerSpec.ReplaceKnownKey | src/PlaceholderHandler.php:425-438 | In any store, a known placeholder whose text around it and value hold no start-delimiter character, in a template where no other stored key's placeholder occurs, renders as `u + value + w`. |
| HandlerSpec.ReplaceKnownWithoutStart | src/PlaceholderHandler.php:428-431 | The key-by-key loop leaves a template without the start delimiter unchanged. |
| HandlerSpec.ReplaceUnknown | src/PlaceholderHandler.php:433-435 | With no known placeholders, a token after plain text becomes the fallback, as in tests/PlaceholderHandlerTest.php:166-173. |
| HandlerSpec.ReplaceUnknownKey | src/PlaceholderHandler.php:425-438 | In any store, a token whose key is not stored, in text that no stored key's placeholder occurs in and that holds no start-delimiter character around it, renders as `u + fallback + w`. |
| HandlerSpec.SweepToken | src/PlaceholderHandler.php:434-435 | The final sweep turns the one token in `u + token + w` into the callback's text for its body and keeps `u` and `w`. |
| HandlerSpec.ReplaceRescans | src/PlaceholderHandler.php:428-431 | With `a` holding `{b}` and `b` added after it holding `x`, `replace` renders `{a}` as `x`: the text is scanned again after each key. |
| HandlerSpec.TrimAll | src/PlaceholderHandler.php:466 | `array_map('trim', ...)` trims every argument and keeps their number and order. |
| HandlerSpec.ParseModifier | src/PlaceholderHandler.php:462-470 | One trimmed modifier split at its first `:` into a name and trimmed arguments. The name never holds `:`, and there are arguments only when the modifier holds `:`. |
| HandlerSpec.Strings | src/PlaceholderHandler.php:474 | Modifier arguments reach the formatter as strings, one per argument, in order. |
| HandlerSpec.ApplyModifier | src/PlaceholderHandler.php:461-479 | An unknown modifier leaves the value alone. A known one yields a string or leaves the value as it was; `ApplyModifierThrowKeeps` states that a throwing one leaves it as it was. |
| HandlerSpec.ApplyModifierThrowKeeps | src/PlaceholderHandler.php:472-477 | A registered modifier whose formatter throws leaves the value unchanged: the exception is caught and the loop goes on. |
| HandlerSpec.Pipeline | src/PlaceholderHandler.php:461-479 | The modifier chain, left to right. The result is the original value or a string. |
| HandlerSpec.PipelineAppend | src/PlaceholderHandler.php:461-479 | Modifiers apply left to right: a chain split in two is the second part run on the result of the first. |
| HandlerSpec.PipelineUnknown | src/PlaceholderHandler.php:472-478 | A chain of modifiers none of which is registered leaves the value unchanged. |
| HandlerSpec.Resolve | src/PlaceholderHandler.php:484 | A token body without `|` that is not itself a stored key gives the fallback: that lookup is not trimmed. |
| HandlerSpec.Resolver | src/PlaceholderHandler.php:447-485 | The callback of `replaceWithModifiers`: `Resolve`, cast to string. |
| HandlerSpec.RenderLeadingToken | src/PlaceholderHandler.php:443-486 | A token at the front is resolved once and its text emitted as it is; the rest of the template is rendered after it. |
| HandlerSpec.MissingKeyGivesFallback | src/PlaceholderHandler.php:450-456 | A piped token whose trimmed key has no value renders as the fallback, whatever its modifiers. |
| HandlerSpec.SplitFirstUnique | src/PlaceholderHandler.php:451 | `explode('|', $s, 2)` splits at the first `|`. |
| HandlerSpec.RenderModifiers | src/PlaceholderHandler.php:443-486 | `replaceWithModifiers`: every token is resolved once by `Resolve` and cast to string. `RenderLeadingToken` and `ModifiersDoNotRescan` state its properties. |
| HandlerSpec.ModifiersDoNotRescan | src/PlaceholderHandler.php:443-486 | On the store of `ReplaceRescans`, `replaceWithModifiers` renders `{a}` as `{b}`: replacement text is never scanned again. |
| HandlerSpec.UpperModifier | src/PlaceholderHandler.php:461-474 | `{key|upper}` with the upper formatter registered gives the upper-cased value, as in tests/PlaceholderHandlerTest.php:134-143. |
| Handler.BuiltinsChain | src/PlaceholderHandler.php:124-146 | The built-in registry is six `registerFormatter` calls in the source's order. |
| Handler.Register | src/PlaceholderHandler.php:362-373 | `registerFormatter` on a registry: the plugin is stored under its own name and every other registered name keeps its plugin. |
| Handler.RegisterAll | src/PlaceholderHandler.php:123-146 | Registering plugins in turn: every plugin's name ends up registered, and nothing registered before is lost. |
| Handler.BuiltinPlugins | src/PlaceholderHandler.php:124-146 | The plugins `registerBuiltInFormatters` registers: date, currency, number, upper, lower and title, in that order. |
| Handler.Builtins | src/PlaceholderHandler.php:124-146 | The registry after `registerBuiltInFormatters`: `RegisterAll` of `BuiltinPlugins` on an empty registry. `BuiltinsChain` and `BuiltinNames` state its properties. |
| Handler.BuiltinNames | src/PlaceholderHandler.php:124-146 | The registry of a fresh handler lists `date, currency, number, upper, lower, title` in that order. tests/FormatterTest.php:124-135 expects all six to be listed. |
| Handler.ProcessDelimiters | src/PlaceholderHandler.php:513-515 | `process` uses the two characters of a two-character delimiter string, otherwise `{` and `}`. |
| Handler.Thunk.Call | src/PlaceholderHandler.php:237 | Calling the closure yields its outcome and counts one call. |
| Handler.PlaceholderHandler.constructor | src/PlaceholderHandler.php:17-33 | A new handler has an empty store and context registry, the six built-ins, fallback `N/A` and delimiters `{` and `}`. |
| Handler.PlaceholderHandler.Add | src/PlaceholderHandler.php:152-157 | The store gets the key with the value `Stored` gives; the invariant is kept. |
| Handler.PlaceholderHandler.AddMany | src/PlaceholderHandler.php:162-169 | The loop adds the given entries one by one, in order, ending in the store `Many` gives. |
| Handler.PlaceholderHandler.CallFormatter | src/PlaceholderHandler.php:364-370 | Calling a registered wrapper returns what `Apply` states. |
| Handler.PlaceholderHandler.AddDate | src/PlaceholderHandler.php:174-190 | The store gets the key with the value `DateValue` gives. |
| Handler.PlaceholderHandler.AddNullable | src/PlaceholderHandler.php:195-208 | The loop with early return stores the value `Nullable` gives. |
| Handler.PlaceholderHandler.AddFormatted | src/PlaceholderHandler.php:213-229 | The store gets the key with the value `FormattedValue` gives. |
| Handler.PlaceholderHandler.AddLazy | src/PlaceholderHandler.php:234-244 | The callback is called exactly once and the value `LazyValue` gives is stored, as tests/PlaceholderHandlerTest.php:97-111 expects. |
| Handler.PlaceholderHandler.AddIf | src/PlaceholderHandler.php:249-254 | The store gets the key with the value `Conditional` gives. |
| Handler.PlaceholderHandler.GetObjectValue | src/PlaceholderHandler.php:535-553 | The segment-by-segment loop returns the dot-path value `ObjectValue` gives. |
| Handler.PlaceholderHandler.AddEntry | src/PlaceholderHandler.php:262-278 | One mapping entry stores `EntryValue` under its placeholder key. |
| Handler.PlaceholderHandler.AddFromContext | src/PlaceholderHandler.php:259-282 | The loop over the mapping ends in the store `FromContext` gives. |
| Handler.PlaceholderHandler.UseContext | src/PlaceholderHandler.php:287-306 | Unknown names and context objects whose guard rejects leave the store as it was. Otherwise the registered mapping is applied. |
| Handler.PlaceholderHandler.RegisterContextMapping | src/PlaceholderHandler.php:311-316 | The mapping goes under its name, replacing an earlier registration. |
| Handler.PlaceholderHandler.RegisterContext | src/PlaceholderHandler.php:321-326 | The context object goes under its own name, replacing an earlier registration. |
| Handler.PlaceholderHandler.GetRegisteredContexts | src/PlaceholderHandler.php:331-334 | Returns the registered names in registration order, exactly the registry's keys. |
| Handler.PlaceholderHandler.GetRegisteredContextInstances | src/PlaceholderHandler.php:339-349 | Returns exactly the names that hold a context object, in registration order. |
| Handler.PlaceholderHandler.HasContext | src/PlaceholderHandler.php:354-357 | True exactly when a context is registered under the name. |
| Handler.PlaceholderHandler.RegisterFormatter | src/PlaceholderHandler.php:362-373 | The formatter goes under its own name, replacing an earlier one. |
| Handler.PlaceholderHandler.HasFormatter | src/PlaceholderHandler.php:378-381 | True exactly when a formatter is registered under the name. |
| Handler.PlaceholderHandler.GetRegisteredFormatters | src/PlaceholderHandler.php:386-389 | Returns the registered names in registration order. |
| Handler.PlaceholderHandler.UnregisterFormatter | src/PlaceholderHandler.php:394-399 | The formatter of that name is removed and the others are kept. |
| Handler.PlaceholderHandler.SetDelimiter | src/PlaceholderHandler.php:404-410 | Sets the start delimiter; the end delimiter is the one given, or else the start delimiter. |
| Handler.PlaceholderHandler.SetFallback | src/PlaceholderHandler.php:415-420 | Sets the fallback. |
| Handler.PlaceholderHandler.All | src/PlaceholderHandler.php:491-494 | Returns the store. |
| Handler.PlaceholderHandler.Clear | src/PlaceholderHandler.php:499-504 | Empties the store and touches nothing else. |
| Handler.PlaceholderHandler.Replace | src/PlaceholderHandler.php:425-438 | The per-key `str_replace` loop and the final sweep compute `ReplaceText`, changing no field. |
| Handler.PlaceholderHandler.ApplyModifierStep | src/PlaceholderHandler.php:462-478 | One pass of the modifier loop computes `ApplyModifier`. |
| Handler.PlaceholderHandler.RunModifiers | src/PlaceholderHandler.php:461-481 | The modifier loop computes the left-to-right `Pipeline`. |
| Handler.PlaceholderHandler.ResolvePiped | src/PlaceholderHandler.php:450-482 | The callback on a body with `|` gives what `Resolve` states. |
| Handler.PlaceholderHandler.ResolveToken | src/PlaceholderHandler.php:447-485 | The callback on any body gives what `Resolve` states, cast to string. |
| Handler.PlaceholderHandler.ReplaceWithModifiers | src/PlaceholderHandler.php:443-486 | The single callback pass computes `RenderModifiers`, changing no field. |
| Handler.PlaceholderHandler.Process | src/PlaceholderHandler.php:509-518 | A fresh handler with the delimiters `ProcessDelimiters` gives, the given placeholders and fallback `N/A`, rendered by `replace`. |
| Handler.PlaceholderHandler.ProcessFresh | src/PlaceholderHandler.php:513-517 | The same, on a handler in its initial state. |
| UserContext.IsUserLike | src/Contexts/UserContext.php:128-138 | The loop with early return is true exactly when one of the five user properties is present. |
| UserContext.HasProperty | src/Contexts/UserContext.php:133-134 | `property_exists` holds exactly when `isset` holds or the property is set to null. |
| UserContext.UserLike | src/Contexts/UserContext.php:131-137 | One of `id`, `name`, `email`, `first_name`, `last_name` is present. `IsUserLike` is proved against it. |
| UserContext.CanProcess | src/Contexts/UserContext.php:55-63 | `canProcess`: an object with one of the five user properties. `CanProcessCases` states its cases. |
| UserContext.CanProcessCases | src/Contexts/UserContext.php:55-63 | A non-object is never processed. An object is processed exactly when it has one of `id`, `name`, `email`, `first_name`, `last_name`. |
| UserContext.CanProcessExamples | src/Contexts/UserContext.php:55-63 | The cases of tests/ContextTest.php:64-85: a name-and-email object is accepted; an unrelated object, a string, an array and null are rejected. |
| UserContext.PropOrEmpty | src/Contexts/UserContext.php:29 | `($user->p ?? '')` cast to string: the property's string form, or `''` when it is unset. |
| UserContext.FullName | src/Contexts/UserContext.php:29 | The `full_name` closure. It never begins or ends with whitespace. |
| UserContext.FullNameOfParts | src/Contexts/UserContext.php:29 | With clean first and last names, `full_name` is the two joined by one space. |
| UserContext.FullNameFirstOnly | src/Contexts/UserContext.php:29 | A missing last name counts as empty and the trailing space is trimmed. |
| UserContext.FullNameNone | src/Contexts/UserContext.php:29 | With neither part, `full_name` is empty. |
| UserContext.FullNameExample | src/Contexts/UserContext.php:29 | The user of tests/ContextTest.php:24-44 has the full name `John Doe`. |
| UserContext.NameSource | src/Contexts/UserContext.php:83-89 | Initials come from `first_name last_name` when both are set, else from `name` when set, else from nothing. |
| UserContext.WordInitial | src/Contexts/UserContext.php:99-101 | A word contributes at most one character, its upper-cased first byte; an empty word contributes nothing. |
| UserContext.WordsInitials | src/Contexts/UserContext.php:98-102 | There are never more initials than words. |
| UserContext.Initials | src/Contexts/UserContext.php:81-105 | What `generateInitials` returns: `''` for an empty name, otherwise the initials of the trimmed name's space-separated words. `GenerateInitials` is proved against it. |
| UserContext.CollectInitials | src/Contexts/UserContext.php:98-102 | The loop appends each word's initial, computing `WordsInitials`. |
| UserContext.GenerateInitials | src/Contexts/UserContext.php:81-105 | Picks the name as `NameSource` does, returns `''` for an empty name, and otherwise the initials of its space-separated words. |
| UserContext.WordsInitialsAppend | src/Contexts/UserContext.php:98-102 | Initials distribute over a split word list, so they come in word order. |
| UserContext.InitialsAreUpper | src/Contexts/UserContext.php:100 | No initial is a lower-case letter. |
| UserContext.InitialsOfFirstAndLast | src/Contexts/UserContext.php:85-104 | With clean one-word first and last names, the initials are their two upper-cased first letters. |
| UserContext.InitialsExample | src/Contexts/UserContext.php:85-104 | John Doe has the initials `JD`, as tests/ContextTest.php:46-62 expects. |
| UserContext.InitialsWithoutName | src/Contexts/UserContext.php:91-93 | Without `name` and without both name parts, the initials are empty. |
| UserContext.ProfileUrl | src/Contexts/UserContext.php:110-123 | Without a route helper, the URL is `/profile/` followed by the id, or `unknown`. |
| UserContext.DisplayName | src/Contexts/UserContext.php:48 | `display_name` when set. Otherwise, with no name and no email, the translated `Unknown User`. Never null. |
| UserContext.IsVerified | src/Contexts/UserContext.php:46 | The `is_verified` closure gives the translated `Yes` or `No`. It gives `No` when `email_verified_at` is unset and `Yes` when it is `true`. |
| UserContext.Mapping | src/Contexts/UserContext.php:21-50 | The mapping has the sixteen output keys in source order, each with its rule. |
| UserContext.RuleFor | src/Contexts/UserContext.php:23-48 | The rule of each output key of `getMapping`. `PathRules`, `DateRules` and `ClosureRules` state them. |
| UserContext.MappingKeysDistinct | src/Contexts/UserContext.php:23-48 | The sixteen output keys are distinct. |
| UserContext.PathRules | src/Contexts/UserContext.php:24-33 | Seven keys read the property of the same name; `profile_photo` reads `profile_photo_path`. |
| UserContext.DateRules | src/Contexts/UserContext.php:34-45 | The three timestamps go through the `date` formatter. |
| UserContext.ClosureRules | src/Contexts/UserContext.php:29-30 | `full_name` and `initials` are closures computing `FullName` and `Initials`; the other three computed keys are closures too. |
| UserContext.SupportedTypes | src/Contexts/UserContext.php:68-76 | `getSupportedTypes`: four names, three namespaced framework classes and then the generic `object`. |
| UserContext.Plugin | src/Contexts/UserContext.php:13-16 | The context is named `user`, has the sixteen keys, and its guard is `canProcess`. |
| SlugFormatter.SkipRun | src/Formatters/SlugFormatter.php:15 | Drops exactly the leading run of characters outside `[a-z0-9]`. |
| SlugFormatter.Collapse | src/Formatters/SlugFormatter.php:15 | The result holds only `[a-z0-9]` and separator characters. |
| SlugFormatter.CollapseRun | src/Formatters/SlugFormatter.php:15 | A maximal run of characters outside `[a-z0-9]`, of any length, becomes a single copy of the separator. |
| SlugFormatter.SkipWholeRun | src/Formatters/SlugFormatter.php:15 | Skipping a maximal run of other characters leaves exactly the text after it. |
| SlugFormatter.CollapseNoDoubled | src/Formatters/SlugFormatter.php:15 | With a one-character separator outside `[a-z0-9]`, no two separators are adjacent in the result. |
| SlugFormatter.SlugShape | src/Formatters/SlugFormatter.php:14-16 | With a one-character separator outside `[a-z0-9]`, a slug is words of `[a-z0-9]` joined by single separators, with none at either end. |
| SlugFormatter.SlugKeepsLettersAndDigits | src/Formatters/SlugFormatter.php:14-16 | The slug keeps exactly the `[a-z0-9]` characters of the trimmed, lower-cased input, in order. |
| SlugFormatter.TrimKeepsKept | src/Formatters/SlugFormatter.php:16 | Trimming separator characters loses no letter or digit. |
| SlugFormatter.Separator | src/Formatters/SlugFormatter.php:11 | `$args[0] ?? '-'`, cast to string. `DefaultSeparatorIsDash` states it. |
| SlugFormatter.Slug | src/Formatters/SlugFormatter.php:14-16 | Lower-case the trimmed value, collapse the runs, trim the separator's characters. `SlugShape` and `SlugKeepsLettersAndDigits` state its properties. |
| SlugFormatter.CanFormat | src/Formatters/SlugFormatter.php:26-29 | The guard accepts strings and integers. Objects with `__toString` are not modelled. |
| SlugFormatter.Format | src/Formatters/SlugFormatter.php:9-19 | An object throws, because its `(string)` cast raises an `Error`. Any other value gives a slug. With a separator that holds no letter or digit, the slug keeps exactly the letters and digits of the trimmed, lower-cased value. |
| SlugFormatter.DefaultSeparatorIsDash | src/Formatters/SlugFormatter.php:11 | The separator defaults to `-`, also for a null argument; a given one is used. |
| SlugFormatter.Example | src/Formatters/SlugFormatter.php:9-19 | `Hello World Test!` becomes `hello-world-test`, and `hello_world_test` with `_`, as tests/FormatterTest.php:148-172 expects. |
| SlugFormatter.Plugin | src/Formatters/SlugFormatter.php:21-24 | The formatter is named `slug`. |
| UpperFormatter.Format | src/Formatters/UpperFormatter.php:9-12 | An object throws, because its `(string)` cast raises an `Error`; any other value succeeds. The result keeps the length. Every ASCII lower-case letter is mapped to upper case and every other byte is unchanged. |
| UpperFormatter.CanFormat | src/Formatters/UpperFormatter.php:19-22 | The guard accepts strings and integers. Objects with `__toString` are not modelled. |
| UpperFormatter.Idempotent | src/Formatters/UpperFormatter.php:11 | Upper-casing a successful result again gives the same result. |
| UpperFormatter.Example | src/Formatters/UpperFormatter.php:11 | `john doe` becomes `JOHN DOE`, as tests/FormatterTest.php:10-19 expects. |
| UpperFormatter.GuardExamples | src/Formatters/UpperFormatter.php:19-22 | Strings and numbers are accepted, as tests/FormatterTest.php:114-115 expects, and null is rejected. |
| UpperFormatter.Plugin | src/Formatters/UpperFormatter.php:14-17 | The formatter is named `upper`. |
| LowerFormatter.Format | src/Formatters/LowerFormatter.php:9-12 | An object throws, because its `(string)` cast raises an `Error`; any other value succeeds. The result keeps the length. Every ASCII upper-case letter is mapped to lower case and every other byte is unchanged. |
| LowerFormatter.CanFormat | src/Formatters/LowerFormatter.php:19-22 | The guard accepts strings and integers. Objects with `__toString` are not modelled. |
| LowerFormatter.Idempotent | src/Formatters/LowerFormatter.php:11 | Lower-casing a successful result again gives the same result. |
| LowerFormatter.Example | src/Formatters/LowerFormatter.php:11 | `John DOE` becomes `john doe`. |
| LowerFormatter.GuardExamples | src/Formatters/LowerFormatter.php:19-22 | Strings and numbers are accepted and null is rejected. |
| LowerFormatter.Plugin | src/Formatters/LowerFormatter.php:14-17 | The formatter is named `lower`. |
| PhoneFormatter.CanFormat | examples/Formatter/PhoneFormatter.php:17-20 | The guard accepts strings and integers. |
| PhoneFormatter.Country | examples/Formatter/PhoneFormatter.php:28 | The country defaults to `MY`. |
| PhoneFormatter.IsLocalNumber | examples/Formatter/PhoneFormatter.php:40 | Ten digits starting `01`. |
| PhoneFormatter.IsInternationalNumber | examples/Formatter/PhoneFormatter.php:44 | Eleven digits starting `601`. |
| PhoneFormatter.LocalLayout | examples/Formatter/PhoneFormatter.php:41 | `$1-$2 $3` over the groups 2, 4 and 4. `LocalLayoutDigits` states its properties. |
| PhoneFormatter.InternationalLayout | examples/Formatter/PhoneFormatter.php:45 | `+6` and then `$1 $2-$3 $4` over the groups 1, 2, 4 and 4. `InternationalLayoutDigits` states its properties. |
| PhoneFormatter.USLayout | examples/Formatter/PhoneFormatter.php:54 | `($1) $2-$3` over the groups 3, 3 and 4. `USLayoutDigits` states its properties. |
| PhoneFormatter.LocalLayoutDigits | examples/Formatter/PhoneFormatter.php:41 | The local layout is 12 characters with a dash after two digits and a space after six, and it keeps the digits. |
| PhoneFormatter.InternationalLayoutDigits | examples/Formatter/PhoneFormatter.php:45 | The international layout is `+6` and then 14 characters with separators after 1, 3 and 7 digits. Its digits are `6` and then all eleven digits. |
| PhoneFormatter.USLayoutDigits | examples/Formatter/PhoneFormatter.php:54 | The United States layout is `(DDD) DDD-DDDD` and keeps the digits. |
| PhoneFormatter.FormatMalaysian | examples/Formatter/PhoneFormatter.php:38-49 | Ten digits starting `01` get the local layout, eleven starting `601` the international one, and any other digit string is returned unchanged. |
| PhoneFormatter.FormatUS | examples/Formatter/PhoneFormatter.php:51-58 | Ten digits get the United States layout; any other digit string is returned unchanged. |
| PhoneFormatter.Format | examples/Formatter/PhoneFormatter.php:22-36 | An empty value gives `N/A`. A non-empty array or an object throws: `preg_replace` refuses the object, and for an array it returns an array that the `string` parameter refuses. Every value the guard accepts succeeds. Otherwise the digits are laid out with none lost and none added, except the `6` of `+6`. An unknown country gives the bare digits. |
| PhoneFormatter.ReformatLocal | examples/Formatter/PhoneFormatter.php:38-42 | Formatting a local-form result again gives the same text. |
| PhoneFormatter.ReformatUS | examples/Formatter/PhoneFormatter.php:51-55 | Formatting a United States result again gives the same text. |
| PhoneFormatter.ZeroIsNotAvailable | examples/Formatter/PhoneFormatter.php:24-26 | `"0"` and `0` are empty to PHP and give `N/A`. |
| PhoneFormatter.LocalExample | examples/Formatter/PhoneFormatter.php:40-42 | `0123456789` becomes `01-2345 6789`. |
| PhoneFormatter.InternationalExample | examples/Formatter/PhoneFormatter.php:44-46 | `60123456789` becomes `+66 01-2345 6789`. |
| PhoneFormatter.USExample | examples/Formatter/PhoneFormatter.php:53-55 | `5551234567` becomes `(555) 123-4567`. |
| PhoneFormatter.Plugin | examples/Formatter/PhoneFormatter.php:12-15 | The formatter is named `phone`. |
| ICFormatter.CanFormat | examples/Formatter/MalaysianICFormatter.php:17-20 | The guard accepts strings and integers. |
| ICFormatter.Style | examples/Formatter/MalaysianICFormatter.php:34 | The style defaults to `default`. |
| ICFormatter.Masked | examples/Formatter/MalaysianICFormatter.php:37 | `substr($ic, 0, 6) . '-**-****'`. `MaskedDigits` states its properties. |
| ICFormatter.Dashed | examples/Formatter/MalaysianICFormatter.php:38 | The 6-2-4 groups joined by dashes. `DashedDigits` states its properties. |
| ICFormatter.MaskedDigits | examples/Formatter/MalaysianICFormatter.php:37 | The masked form is the six birth-date digits and `-**-****`: 14 characters with only those six digits. |
| ICFormatter.DashedDigits | examples/Formatter/MalaysianICFormatter.php:38 | The dashed form is 14 characters, the 6-2-4 digit groups joined by dashes, keeping all twelve digits. |
| ICFormatter.Format | examples/Formatter/MalaysianICFormatter.php:22-41 | An empty value gives `N/A`. A non-empty array or an object throws: the object's cast raises an `Error`, and the array comes back as itself, which the `string` return type refuses. Every value the guard accepts succeeds. A value whose digits are not twelve comes back as given, not cleaned. Otherwise the masked, dashed or bare form follows the option. |
| ICFormatter.FormatDigits | examples/Formatter/MalaysianICFormatter.php:24-40 | A string of twelve digits gives the masked, dashed or bare form as the option says. |
| ICFormatter.ReformatDashed | examples/Formatter/MalaysianICFormatter.php:38 | A dashed result formatted dashed again is unchanged, and the bare style recovers the twelve digits from it. |
| ICFormatter.MaskedIsFinal | examples/Formatter/MalaysianICFormatter.php:37 | A masked result has six digits, so formatting it again in any style returns it as it is. |
| ICFormatter.PlainExample | examples/Formatter/MalaysianICFormatter.php:39 | `900101011234` comes back as it is. |
| ICFormatter.DashedStyleExample | examples/Formatter/MalaysianICFormatter.php:38 | `900101011234` dashed is `900101-01-1234`. |
| ICFormatter.MaskedStyleExample | examples/Formatter/MalaysianICFormatter.php:37 | `900101011234` masked is `900101-**-****`. |
| ICFormatter.ShortExample | examples/Formatter/MalaysianICFormatter.php:30-32 | `12-345` has too few digits and comes back unchanged. |
| ICFormatter.Plugin | examples/Formatter/MalaysianICFormatter.php:12-15 | The formatter is named `ic`. |

## Left out

- `loadConfig` and the configuration lookups of `registerBuiltInFormatters` (src/PlaceholderHandler.php:38-121) call the framework. The constructor takes the defaults:
  - fallback `N/A`;
  - delimiters `{` and `}`;
  - every built-in formatter enabled.
- `registerGlobalFormatter` writes the framework's global configuration and is not part of this model.
- The date, currency, number and title formatters: Carbon, floating-point `number_format` and `Str::title` are not part of this model. They are plugin parameters of the constructor, known only by name.
- Handler.PlaceholderHandler.Replace: requires three things that keep the regular expression the intended one. An empty end delimiter makes the pattern invalid, and `preg_quote` is not given the pattern delimiter `/`. A `$` or `\` in the fallback would be read as a back-reference in the replacement. So the model requires:
  - a non-empty end delimiter;
  - no `/` in either delimiter;
  - no `$` or `\` in the fallback.
- Handler.PlaceholderHandler.ReplaceWithModifiers: requires a non-empty end delimiter without `/` in either delimiter, for the same reason.
- Handler.PlaceholderHandler.Process: requires a delimiter string without `/`, and built-in plugins under their own names.
- Handler.PlaceholderHandler.AddDate: requires a registered `date` formatter. Without one, the source's call is an uncaught `Error`.
- PHP's `Error` and `\Exception` are one outcome, `Threw`. The handler catches only `\Exception`. The modelled formatters raise an `Error` only for an array or an object, which their guards reject, so the handler's wrapper never calls them with one. Other `Error`s that the handler does not catch are not modelled.
- Values.ToStr: an object cast to string renders as `""`. PHP raises an `Error` for an object without `__toString`. The formatters model that `Error` as `Threw`. The handler's own casts of a stored object, in `replace` and in the callback of `replaceWithModifiers`, are not modelled as failing. Objects with `__toString` or magic `__get` are not part of this model.
- An array cast to string gives `Array`; the warning PHP emits goes unmodelled.
- Floats are not part of the value model. `is_numeric` is modelled as "is an integer"; every string already passes `is_string`.
- Integers are unbounded, and PHP array keys are strings only. PHP's integer keys, and the casting of numeric string keys to integers, are not modelled.
- `setFallback` takes a string. The source accepts `mixed` but declares the field `string`.
- `trim` with a character list: ranges such as `a..z` in the list are not modelled. This affects the slug separator.
- SlugFormatter.Format: a `$` or `\` in a custom separator would act as a back-reference in `preg_replace`. It is treated as literal text. The formatter's own contract does not state the slug's shape; the lemma `SlugShape` does.
- UserContext.IsUserLike: objects with `__get` and the Eloquent `Model` table check are not part of this model. Only declared or set properties count.
- UserContext.Initials: `trim($name)` raises a `TypeError` when `name` is a non-empty array or an object. The model casts the name instead, so it gives `A` for such an array and `''` for an object.
- UserContext.ProfileUrl: `route()` is a parameter. So is the translation helper `__()`, in `DisplayName`, `IsVerified` and `Mapping`.
- Tests that call methods absent from the handler are read against the real methods:
  - `registerFormatterInstance` is read as `RegisterFormatter`;
  - `registerContext(name, array)` is read as `RegisterContextMapping`;
  - the closure form of `registerFormatter` at tests/PlaceholderHandlerTest.php:66 has no counterpart and is not modelled.
- The fluent `return $this` of every mutating method is left out; the methods return nothing.
