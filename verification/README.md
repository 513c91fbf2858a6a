# spool and plait, modelled in Dafny

This project models the two generations of one HTML templating engine. `spool` is the older
one and `plait` the newer one. Each has a small runtime library and a procedural-macro crate.

The runtime side of the model covers:

- spool's `HtmlFormatter` state machine. It is modelled twice: as pure functions over a
  snapshot `Fmt`, and as a class with mutable fields whose methods are proved equal to those
  functions.
- HTML escaping. This includes a loop model of `escape_html` proved equal to a per-character
  specification.
- Escape-mode resolution and the per-type `Render` implementations of both engines.
- The two `Attributes` collections. These are insertion-ordered maps in which `class` values
  accumulate.
- plait's URL sanitiser. It percent-decodes twice, unescapes entities, strips control
  characters, trims, then recognises a scheme and checks it against an allow-list.
- plait's stateless formatter writers, the `HtmlDisplay` pieces, `MaybeAttr` and `Classes`.

The compile-time side covers:

- The template grammars over a token datatype. This includes attribute names, values and spreads, escape-mode suffixes,
  element names, node dispatch, `if`/`@else` chains, component calls and match arms.
- The code generators. Each is modelled as a pure function from the syntax tree to a list of
  operations, together with an interpreter for those operations.
- The generic-parameter desugaring of component fields.

The main theorems are:

- `SpoolLower.RunNode`: running the operations generated for a spool template on the spool
  formatter never fails, for any values of the host expressions, provided the template has no
  spread attribute and no void element has children. The run writes exactly the markup the
  template stands for.
- `PlaitLower.NodeWrites`: running the statements generated for a plait template writes
  exactly the markup the template stands for.
- `Url.IsUrlSafeMeaning`: a declarative statement of which URLs plait accepts.
- `Entities.UnescapeEscape`: HTML escaping loses nothing.
- `Desugar.DesugarFields`: the contract of the generic desugaring. It fixes the
  parameter order and the fresh names.

Host-language pieces are single tokens. These are expressions, patterns, types and paths. An
environment (`Env`) gives the value of each host expression when generated code runs: the
value rendered, the flag tested, the number of loop iterations, the match arm taken, and the
markup a closure or component writes.

Where the code and the design description disagree, the model follows the code:

- spool writes each attribute as soon as it is given (spool/src/formatter.rs:86-111). It does
  not buffer attributes per element.
- spool's formatter has no `spread_attributes`. The generated call to it is modelled as an
  operation that stops with an error (`SpoolLower.SpreadStops`).
- spool's default attribute escape mode is `Html`, even for URL-valued names such as `href`.

## Model

| member | source | states |
|---|---|---|
| SpoolFormatter.VoidIgnoresCase | spool/src/formatter.rs:7-15 | The void check ignores ASCII case. A lowercase name is void exactly when it is one of the 14 listed names. |
| SpoolFormatter.New | spool/src/formatter.rs:46-52 | A new formatter has no open element, is `Idle` and keeps the output it was given. |
| SpoolFormatter.ClosePending | spool/src/formatter.rs:55-62 | A pending start tag gets its `>` and the state becomes `InContent`. In any other state nothing changes. |
| SpoolFormatter.StartElement | spool/src/formatter.rs:65-83 | Closes a pending tag, appends `<name`, pushes the name with its void flag and sets `TagOpened`. It keeps the Idle-iff-empty invariant. |
| SpoolFormatter.WriteAttribute | spool/src/formatter.rs:86-111 | Fails with `AttributeOutsideTag` exactly when no start tag is pending, and then changes nothing. Otherwise it appends ` name="value"` with the value rendered in the mode resolved for that attribute. |
| SpoolFormatter.WriteOptionalAttribute | spool/src/formatter.rs:114-142 | The same tag check. `Some(v)` behaves as `write_attribute(v)` and `None` appends nothing. |
| SpoolFormatter.WriteBooleanAttribute | spool/src/formatter.rs:145-159 | The same tag check. `true` appends ` name` and `false` appends nothing. |
| SpoolFormatter.WriteContent | spool/src/formatter.rs:162-188 | Fails with `ContentInVoidElement` exactly when a void element's start tag is pending. Otherwise it closes the pending tag and appends the rendered content, keeping the stack and the invariant. |
| SpoolFormatter.EndElement | spool/src/formatter.rs:191-219 | Fails with `NoElementToClose` exactly on an empty stack. Otherwise it pops one element. A void element gets only its pending `>`; any other element gets its pending `>` and then `</name>`. |
| SpoolFormatter.EmptyElement | spool/src/formatter.rs:191-219 | Starting and ending an element gives `<name>` for void names and `<name></name>` otherwise, and restores the stack. |
| SpoolFormatter.ElementWithAttributeAndText | spool/src/formatter.rs:249-274 | The scenario start, attribute, content, end writes `<tag name="value">text</tag>`. |
| SpoolFormatter.NestedElements | spool/src/formatter.rs:249-274 | Two nested elements with text write `<outer><inner>text</inner></outer>`. |
| SpoolFormatter.VoidElementWithAttribute | spool/src/formatter.rs:277-290 | A void element with an attribute writes `<tag name="value">` and no end tag. |
| SpoolFormatter.ErrorCases | spool/src/formatter.rs:361-391 | Each of the three errors is produced by its scenario: an attribute after content, ending with nothing open, and content inside `br`. |
| SpoolFormatter.CleanWord | spool/src/escape.rs:16-30 | Text needing no escape renders as itself for every element and attribute under the default mode. |
| SpoolHtmlFormatter.HtmlFormatter.StartElement | spool/src/formatter.rs:65-83 | The mutable method moves the fields exactly as the pure `StartElement` moves a snapshot, and keeps the class invariant `Valid`: idle exactly when no element is open. |
| SpoolHtmlFormatter.HtmlFormatter.WriteAttribute | spool/src/formatter.rs:86-111 | The mutable method returns the pure function's error and changes nothing on failure. On success it moves the fields as the pure function does. |
| SpoolHtmlFormatter.HtmlFormatter.WriteContent | spool/src/formatter.rs:162-188 | The same correspondence for `write_content`, keeping `Valid`. |
| SpoolHtmlFormatter.HtmlFormatter.EndElement | spool/src/formatter.rs:191-219 | The same correspondence for `end_element`, keeping `Valid`. |
| HtmlEscape.Entity | spool/src/escape/html.rs:16-26 | Each special character's replacement is an entity, `&`…`;`, at least four characters long. |
| HtmlEscape.EscapeHtml | spool/src/escape/html.rs:3-44 | The byte loop, with its fast path, appends exactly `Escape(s)` to the prior output. |
| HtmlEscape.EscapeRuns | spool/src/escape/html.rs:10-41 | The run-copying loop appends exactly `Escape(s)`. Clean runs are copied whole and each special character is replaced by its entity. |
| HtmlEscape.EscapeAppend | spool/src/escape/html.rs:14-41 | Escaping distributes over concatenation, since each character is handled on its own. |
| HtmlEscape.EscapeIdentityIffClean | spool/src/escape/html.rs:3-51 | Escaping leaves a string unchanged exactly when `needs_html_escape` is false, so the fast path agrees with the loop. |
| HtmlEscape.EscapeLength | spool/src/escape/html.rs:14-41 | Escaping never shortens its input. |
| HtmlEscape.EscapeHasNoMarkup | spool/src/escape/html.rs:16-26 | Escaped text contains no `<`, `>`, `"` or `'`. |
| HtmlEscape.AllSpecialsEscaped | spool/src/escape/html.rs:79-83 | The five specials map to `&lt;&quot;&#39;&gt;&amp;` in order. |
| Entities.MatchTable | plait/src/url.rs:36 | A matched fixed entity is longer than one character and lies within the input. |
| Entities.NumericRef | plait/src/url.rs:36 | A matched numeric reference is longer than one character and lies within the input. |
| Entities.Unescape | plait/src/url.rs:36 | Unescaping never lengthens the text. |
| Entities.DecodeEntity | spool/src/escape/html.rs:16-26 | Each entity the escaper writes decodes back to its character. |
| Entities.UnescapeEscapedChar | spool/src/escape/html.rs:14-41 | Unescaping one escaped character followed by more text gives the character followed by the unescaped rest. |
| Entities.UnescapeEscape | spool/src/escape/html.rs:3-44 | Unescaping the escaped text gives back the original, so escaping loses nothing. |
| Markup.ReadEscapedAttr | plait/src/formatter.rs:88-92 | An attribute written with an escaped value reads back as exactly its name and value. |
| Markup.ReadRawAttr | plait/src/formatter.rs:81-85 | A raw attribute whose value has no `"` reads back as its name and the unescaped value. |
| SpoolEscape.ResolveForElement | spool/src/escape.rs:16-21 | The element mode is the provided mode, else `Html`, whatever the element. |
| SpoolEscape.ResolveForAttribute | spool/src/escape.rs:24-30 | The attribute mode is the provided mode, else `Html`. |
| SpoolEscape.DefaultIsHtmlEverywhere | spool/src/escape.rs:16-30 | Both resolutions agree and ignore the element and attribute names, including URL names. |
| SpoolRender.Render | spool/src/render.rs:11-102 | Trusted values, and any value in `Raw` mode, append their text verbatim. Other values in `Html` mode append the escaped text. |
| SpoolRender.IntTextHasNoSpecials | spool/src/render.rs:41-79 | A printed integer needs no escaping. |
| SpoolRender.BoolTextHasNoSpecials | spool/src/render.rs:83-88 | `true` and `false` are unchanged by escaping. |
| SpoolRender.ModeIrrelevantForScalars | spool/src/render.rs:41-88 | Integers and booleans render the same in both modes. |
| SpoolRender.HtmlRenderIsSafeAndLossless | spool/src/render.rs:11-96 | Untrusted text rendered as HTML contains no markup and unescapes to the value's text. |
| SpoolRender.RefIsTransparent | spool/src/render.rs:98-102 | `&T` renders and is trusted exactly as `T`. |
| AttrMap.Names | spool/src/attributes.rs:94-104 | Lists the keys in insertion order. |
| AttrMap.IndexOf | spool/src/attributes.rs:19-44 | Returns the key's unique first position, or reports that it is absent. |
| AttrMap.Insert | spool/src/attributes.rs:38-40 | `IndexMap::insert`: the key now maps to the value and other keys are unchanged. An existing key keeps its position and a new key goes last. Keys stay unique. |
| AttrMap.InsertNewOther | spool/src/attributes.rs:38-40 | Appending a new key does not move the other keys. |
| AttrMap.MergeEntryShape | spool/src/attributes.rs:71-88 | Merging one entry keeps keys unique and keeps the existing keys in place. |
| AttrMap.MergeKeepsPositions | spool/src/attributes.rs:71-88 | A merge keeps keys unique and keeps every existing key in its position. |
| AttrMap.MergeEntryLookup | spool/src/attributes.rs:71-88 | Merging one entry gives each key its merged value: `class` values join, a valueless `class` is ignored, and other names are overwritten. |
| AttrMap.MergeLookup | spool/src/attributes.rs:71-88 | After a whole merge, every key holds the value the class-join and overwrite rule gives it. |
| AttrMap.RenderAppend | spool/src/attributes.rs:94-104 | Rendering distributes over concatenation of entry lists. |
| AttrMap.RenderInsertNew | spool/src/attributes.rs:94-104 | Inserting a new key appends ` name` or ` name="value"` to the rendered text, without re-escaping. |
| SpoolAttributes.New | spool/src/attributes.rs:12-16 | A new collection is empty and valid. |
| SpoolAttributes.Add | spool/src/attributes.rs:19-44 | The value is rendered once, in the resolved mode. `class` joins onto an existing valued `class` and any other name is overwritten. Other keys are unchanged and validity is kept. |
| SpoolAttributes.AddOptional | spool/src/attributes.rs:47-59 | `None` changes nothing and `Some(v)` is `add(v)`. |
| SpoolAttributes.AddBoolean | spool/src/attributes.rs:62-68 | `true` stores the name with no value and leaves other keys alone. `false` changes nothing. |
| SpoolAttributes.Merge | spool/src/attributes.rs:71-88 | Every key ends with its merged value, existing keys keep their positions and validity is kept. |
| SpoolAttributes.FirstClass | spool/src/attributes.rs:28-36 | The first `class` stores its escaped value as the only entry. |
| SpoolAttributes.SecondClass | spool/src/attributes.rs:28-33 | A second `class` appends a space and the new value to the stored one. |
| SpoolAttributes.ClassesAccumulate | spool/src/attributes.rs:161-180 | Two classes give one entry `a b`, rendered ` class="a b"`. |
| SpoolAttributes.RenderOneValued | spool/src/attributes.rs:94-104 | One valued entry renders as ` name="value"`. |
| SpoolAttributes.SecondValueWins | spool/src/attributes.rs:151-159 | Adding a non-`class` name twice keeps one entry, in its first position, holding the second value. |
| SpoolAttributes.DefaultValuesStayQuoted | spool/src/attributes.rs:182-196 | Under the default mode an untrusted value is stored escaped, so it cannot break out of its quotes. |
| PlaitEscape.ResolveForElement | plait/src/escape.rs:42-47 | The element mode is the provided mode, else `Html`. |
| PlaitEscape.ResolveForAttribute | plait/src/escape.rs:50-58 | The attribute mode is the provided mode when one is given. |
| PlaitEscape.DefaultAttributeMode | plait/src/escape.rs:6-58 | Without an override the mode is `Url` exactly for URL attributes, and is never `Raw`. |
| PlaitEscape.DefaultModeExamples | plait/src/escape.rs:6-22 | `href` and `src` default to `Url`; `class` defaults to `Html`. |
| Url.PercentDecode | plait/src/url.rs:28-35 | Percent-decoding never lengthens the text. |
| Url.StripControls | plait/src/url.rs:37 | The result contains no control character and is no longer than the input. |
| Url.TrimStart | plait/src/url.rs:39 | The result is a suffix of the input that does not start with white space. |
| Url.TrimEnd | plait/src/url.rs:39 | The result is a prefix of the input that does not end with white space. |
| Url.Trim | plait/src/url.rs:39 | The result neither starts nor ends with white space. |
| Url.FirstColon | plait/src/url.rs:64-72 | Finds the first `:`, or reports that there is none. |
| Url.FirstPathEnd | plait/src/url.rs:74-79 | Finds the first `/`, `?` or `#`, or reports that there is none. |
| Url.TokenEnd | plait/src/url.rs:88-92 | The scheme token is the longest run of scheme characters from the given position. |
| Url.ParseSchemeMeaning | plait/src/url.rs:64-106 | `parse_scheme` agrees with the scheme grammar: a result is the lowercased prefix ending where a scheme ends, and any place a scheme ends yields that result. |
| Url.SchemeFromReading | plait/src/url.rs:64-106 | A scheme token followed by white space or controls and a colon, with no path character before it, is the parsed scheme. |
| Url.IsUrlSafeMeaning | plait/src/url.rs:22-60 | A URL is safe exactly when it is non-empty, decodes, leaves text after cleaning, and every scheme that text has is allowed. |
| Url.SafeByDecoded | plait/src/url.rs:22-60 | The same check stated with the parsed scheme: no scheme or an allowed scheme. |
| Url.SchemeOfToken | plait/src/url.rs:81-105 | A letter-led token, then white space or controls, then `:` parses as that token lowercased. |
| Url.SchemeOfTokenNoGap | plait/src/url.rs:81-105 | A letter-led token directly followed by `:` parses as that token lowercased. |
| Url.ParseSchemeIgnoresCase | plait/src/url.rs:105 | Lowercasing the input first does not change the parsed scheme. |
| Url.AllowedSchemeLength | plait/src/url.rs:58-60 | Every allowed scheme has 3 to 6 letters. |
| Url.DisallowedSchemeIsUnsafe | plait/src/url.rs:45-55 | A decoded URL whose scheme is not allowed is unsafe. |
| Url.RelativeUrlIsSafe | plait/src/escape/url.rs:57 | Decoded text with no colon is relative and safe, for example a bare host name. |
| Url.StripControlsAppend | plait/src/url.rs:37 | Control stripping distributes over concatenation. |
| Url.ControlIsInvisible | plait/src/url.rs:37 | A control character anywhere in the text is dropped before the scheme check, so `java\0script:` is `javascript:`. |
| Url.PlainDecodesToItself | plait/src/url.rs:28-37 | Text without `%`, `&` or controls passes the decode, unescape and strip steps unchanged. |
| Url.PlainUrl | plait/src/url.rs:28-43 | Plain printable text reaches the scheme check unchanged. |
| Url.PlainSchemeBlocked | plait/src/url.rs:45-55 | A refused scheme followed by `:` and plain text is unsafe. |
| Url.JavascriptIsBlocked | plait/src/url.rs:212-230 | `javascript:` followed by plain text is unsafe. |
| Url.HttpsIsAllowed | plait/src/url.rs:45-60 | `https:` followed by plain text is safe. |
| Url.PlainSchemeSafe | plait/src/url.rs:45-60 | For a scheme token followed by `:` and plain text, the URL is safe exactly when the scheme, lower-cased, is on the allow-list. |
| Url.SchemeShape | plait/src/url.rs:81-105 | A parsed scheme is non-empty, lowercase, letter-led and made only of scheme characters. |
| Url.NoLetterNoScheme | plait/src/escape/url.rs:74-77 | Text that does not start with an ASCII letter has no scheme, so a fullwidth `ｊａｖａｓｃｒｉｐｔ:` counts as relative. |
| UrlEscape.EscapeUrl | plait/src/escape/url.rs:4-17 | The result is either `about:invalid` or text that unescapes to the input. |
| UrlEscape.EscapeUrlInto | plait/src/escape/url.rs:11-17 | The writer appends exactly `EscapeUrl(s)` to the prior output. |
| UrlEscape.SafeUrlIsNotFallback | plait/src/escape/url.rs:11-17 | A safe URL is never replaced by the fallback. |
| UrlEscape.FallbackIsUnsafe | plait/src/escape/url.rs:4 | `about:invalid` itself fails the check, so the fallback cannot be confused with an accepted URL. |
| UrlEscape.EscapeUrlMeaning | plait/src/escape/url.rs:11-17 | The fallback appears exactly for unsafe input, and safe input is escaped without loss. |
| UrlEscape.EscapeUrlKeepsVerdict | plait/src/escape/url.rs:11-17 | Unescaping the output gives a URL with the same verdict as the input. |
| UrlEscape.EscapeUrlHasNoMarkup | plait/src/escape/url.rs:11-17 | The output contains no markup characters. |
| UrlEscape.EmptyUrlIsBlocked | plait/src/escape/url.rs:167-186 | The empty URL becomes `about:invalid`. |
| PlaitFormatter.WriteHtmlEscaped | plait/src/formatter.rs:76-78 | Appends text with no markup that unescapes to the input. |
| PlaitFormatter.WriteAttributeRaw | plait/src/formatter.rs:81-85 | Appends ` name="value"` verbatim. |
| PlaitFormatter.WriteAttributeEscaped | plait/src/formatter.rs:88-92 | Appends ` name="value"` with only the value escaped. |
| PlaitFormatter.WriteOptionalAttributeRaw | plait/src/formatter.rs:105-109 | `None` appends nothing and `Some(v)` equals the raw writer. |
| PlaitFormatter.WriteOptionalAttributeEscaped | plait/src/formatter.rs:112-116 | `None` appends nothing and `Some(v)` equals the escaped writer. |
| PlaitFormatter.WriteUrlAttributeEscaped | plait/src/formatter.rs:119-125 | Writes exactly when the name is a URL attribute and the value is safe, and then writes the escaped attribute. Otherwise it appends nothing. |
| PlaitFormatter.WriteOptionalUrlAttributeEscaped | plait/src/formatter.rs:128-132 | `None` appends nothing and `Some(v)` equals the URL writer. |
| PlaitFormatter.EscapedAttributeReadsBack | plait/src/formatter.rs:88-92 | The escaped attribute keeps the prior output and reads back as the same name and value. |
| PlaitFormatter.RawAttributeReadsBack | plait/src/formatter.rs:81-85 | A raw attribute whose value has no `"` reads back as its name and the value unescaped. |
| PlaitFormatter.UrlAttributeReadsBack | plait/src/formatter.rs:119-125 | The URL writer writes nothing, or an attribute that reads back as a safe URL. |
| PlaitFormatter.EmptyElement | plait/src/formatter.rs:54-68 | Open, close-start and close give `<name>` for the 14 lowercase void names and `<name></name>` otherwise. |
| PlaitFormatter.VoidExamples | plait/src/formatter.rs:144-162 | plait's void check is case-sensitive: `br` is void, `BR` and `div` are not. |
| PlaitDisplay.CloseTagIgnoresVoid | plait/src/display.rs:95-97 | The `CloseTag` piece always writes `</name>`, so it matches the formatter exactly for non-void names. |
| PlaitDisplay.UrlAttributeChecksOnlyTheUrl | plait/src/display.rs:158-166 | `UrlAttribute` writes exactly when the URL is safe and does not check the name. It can therefore differ from the formatter's writer for names that are not URL attributes. |
| PlaitDisplay.UrlAttributeReadsBack | plait/src/display.rs:158-166 | `UrlAttribute` writes nothing, or an attribute that reads back as a safe URL. |
| PlaitDisplay.MaybeAgreesWithFormatter | plait/src/display.rs:178-214 | `MaybeAttribute` and `RawMaybeAttribute` write what the formatter's maybe writers write for the same value. |
| PlaitDisplay.UrlMaybeMeaning | plait/src/display.rs:223-232 | `None` writes nothing and `Some(u)` behaves as `UrlAttribute(u)`. |
| PlaitDisplay.RefIsTransparent | plait/src/display.rs:61-70 | A reference to a piece writes what the piece writes. |
| PlaitMaybeAttr.MaybeAttrMeaning | plait/src/maybe_attr.rs:27-51 | For `bool` both writers are the boolean writer. For `Option`, `None` writes nothing and `Some(v)` writes the escaped or raw attribute. |
| PlaitMaybeAttr.MixedMaybeAttributes | plait/src/formatter.rs:251-278 | A mix of present, absent, true and false maybe-attributes writes only the present and true ones, in order. |
| PlaitRender.Underlying | plait/src/render.rs:204-276 | Unwrapping references, boxes and options ends in a value that is not a wrapper. |
| PlaitRender.Render | plait/src/render.rs:55-275 | Absent options write nothing. Non-text values write their text in every mode. Text is HTML-escaped, URL-checked and escaped, or copied, according to the mode. |
| PlaitRender.IntTextIsClean | plait/src/render.rs:120-166 | A printed integer has no markup and needs no escaping. |
| PlaitRender.RenderHasNoMarkup | plait/src/render.rs:55-118 | Outside `Raw` mode, anything but caller-vouched markup renders without markup characters. |
| PlaitRender.HtmlRenderIsLossless | plait/src/render.rs:64-90 | `Html` mode unescapes back to the value's text, except for pre-escaped values and markup. |
| PlaitRender.BoolTextUnescapes | plait/src/render.rs:168-180 | `true` and `false` unescape to themselves. |
| PlaitRender.UrlRenderIsSafe | plait/src/render.rs:64-90 | Text in `Url` mode is the fallback, or a safe URL that unescapes back to the text. |
| PlaitRender.WrappersAreTransparent | plait/src/render.rs:204-276 | `&T`, `&mut T`, `Box<T>` and `Some(T)` render as `T`, and `None` renders nothing. |
| PlaitRender.TextKindsAgree | plait/src/render.rs:64-201 | `String` renders as `str` does, and `char` as its one-character string, in every mode. |
| PlaitRender.ModeIrrelevantForNonText | plait/src/render.rs:92-202 | Non-text values render the same in every mode. |
| PlaitClasses.Kept | plait/src/classes.rs:38-57 | The kept parts are non-empty and no more numerous than the input parts. |
| PlaitClasses.LastSpace | plait/src/classes.rs:81-93 | Finds the last space, or reports that there is none. |
| PlaitClasses.WriteClasses | plait/src/classes.rs:81-93 | The writing loop produces the kept parts joined by single spaces. |
| PlaitClasses.SplitJoin | plait/src/classes.rs:81-93 | Splitting the joined text at spaces gives back the space-free words, so the join is unambiguous. |
| PlaitClasses.JoinHasNoEdgeSpace | plait/src/classes.rs:81-93 | The join is empty only for no words, and it never starts or ends with a space. |
| PlaitClasses.AllSkippedIsEmpty | plait/src/classes.rs:72-92 | When every part is skipped, nothing is written. |
| PlaitClasses.KeptOfSkipped | plait/src/classes.rs:38-57 | Skipped parts are all dropped. |
| PlaitClasses.ButtonExample | plait/src/classes.rs:72-73 | `("btn", Some("btn-primary"), None)` writes `btn btn-primary`. |
| PlaitAttributes.New | plait/src/attributes.rs:29-33 | A new collection is empty and valid. |
| PlaitAttributes.WithCapacity | plait/src/attributes.rs:36-40 | The capacity is only a hint: the collection equals a new one. |
| PlaitAttributes.Add | plait/src/attributes.rs:43-60 | The value is rendered in the URL-aware resolved mode. `class` joins and other names are overwritten. Other keys are unchanged and validity is kept. |
| PlaitAttributes.AddOptional | plait/src/attributes.rs:63-72 | `None` changes nothing and `Some(v)` is `add(v)`. |
| PlaitAttributes.AddBoolean | plait/src/attributes.rs:75-79 | `true` stores a valueless entry and `false` changes nothing. |
| PlaitAttributes.Merge | plait/src/attributes.rs:82-99 | The class-join and overwrite merge, keeping existing positions and validity. |
| PlaitAttributes.UrlAttributesAreChecked | plait/src/attributes.rs:43-60 | A URL attribute added without a mode stores the fallback, or the escaped URL when the URL is safe. |
| PlaitAttributes.SecondValueWins | plait/src/attributes.rs:159-167 | A repeated non-`class` add keeps one entry, in place, with the last value. |
| PlaitAttributes.ThreeClasses | plait/src/attributes.rs:169-188 | Three `class` adds give `a b c`. |
| Tokens.ParseHost | plait-macros/src/ast/component_call.rs:84-90 | Accepts exactly one host token of the kind asked for at the front, so a string literal is refused where a type or path is expected. Otherwise it reports what was expected. |
| Tokens.ParseWholeHost | plait-macros/src/ast/node.rs:28-31 | A group's content is an expression exactly when it is one host token. |
| AttrSyntax.ParseEscapeMode | plait-macros/src/ast/escape.rs:32-40 | `raw` gives `Raw` and `html` gives `Html`. Any other identifier is `invalid escape mode`, and a non-identifier is an error. |
| AttrSyntax.ParseGroupContent | spool-macros/src/ast/expression/parenthesized_expression.rs:28-42 | The expression is carried unchanged. The mode is absent exactly when no `:` follows, and is the parsed keyword when `: mode` follows. |
| AttrSyntax.ParseParenthesized | spool-macros/src/ast/expression/parenthesized_expression.rs:28-42 | A parenthesised group parses exactly when its content does, and the group is consumed. |
| AttrSyntax.ParseBracketed | plait-macros/src/ast/expression/bracketed_expression.rs:28-42 | A bracketed group parses exactly when its content does, and the group is consumed. |
| AttrSyntax.ParseNameTail | spool-macros/src/ast/attribute/attribute_name.rs:89-137 | The separator loop stops at a token that does not continue a name and leaves that token unconsumed. |
| AttrSyntax.NameTailSound | spool-macros/src/ast/attribute/attribute_name.rs:89-137 | What the loop consumes is separator-identifier pairs, and the name is their text. |
| AttrSyntax.ParseAttributeName | spool-macros/src/ast/attribute/attribute_name.rs:44-144 | Empty input is `expected attribute name`. A parsed name consumes input and stops where the name cannot continue. |
| AttrSyntax.NameSound | spool-macros/src/ast/attribute/attribute_name.rs:44-144 | Every parsed name is the text of the tokens consumed, and those tokens follow the name grammar. |
| AttrSyntax.NameComplete | spool-macros/src/ast/attribute/attribute_name.rs:44-144 | Every token sequence in the name grammar, followed by a stopping token, parses as its text. Together with `NameSound` the parser is exact for the grammar. |
| AttrSyntax.NameEdges | spool-macros/src/ast/attribute/attribute_name.rs:89-137 | A name never starts with `-` or `.` and always ends with an identifier. |
| AttrSyntax.TextOfAppend | spool-macros/src/ast/attribute/attribute_name.rs:89-137 | The text of concatenated tokens is the concatenated text. |
| AttrSyntax.NameTailComplete | spool-macros/src/ast/attribute/attribute_name.rs:99-136 | The separator loop consumes any well-formed tail followed by a stopping token. |
| AttrSyntax.NameTailEndsInIdent | spool-macros/src/ast/attribute/attribute_name.rs:99-133 | A non-empty tail ends in an identifier, so a trailing separator is never accepted. |
| AttrSyntax.NameTokensEndInIdent | spool-macros/src/ast/attribute/attribute_name.rs:89-137 | A whole name ends in an identifier. |
| AttrSyntax.ParseAttributeValue | plait-macros/src/ast/attribute/attribute_value.rs:58-90 | `?[..]` gives `Boolean`. After `=`, a paren gives `Dynamic`, a bracket gives `Optional` and a string gives `Literal` with its text. Any other start is the `expected '=' or '?[bool_expr]'` error. |
| AttrSyntax.ParseAttribute | spool-macros/src/ast/attribute.rs:30-57 | `..(e)` is a spread of `e`, and `..` without a paren is an error. Otherwise a name is parsed, with a value exactly when `?` or `=` follows. Empty input is an error. |
| AttrSyntax.GroupRoundTrip | spool-macros/src/ast/expression/parenthesized_expression.rs:28-42 | An expression written with its mode suffix, or without one, reads back as the same expression and mode. |
| AttrSyntax.ValueRoundTrip | plait-macros/src/ast/attribute/attribute_value.rs:58-90 | Every value form written as `= "..."`, `= (e)`, `= [e]` or `?[c]` reads back as itself and leaves what follows untouched. |
| AttrSyntax.IdentNameRoundTrip | spool-macros/src/ast/attribute/attribute_name.rs:44-144 | A one-identifier name reads back as itself when a token that cannot continue a name follows. |
| AttrSyntax.AttributeRoundTrip | spool-macros/src/ast/attribute.rs:30-57 | A written spread, bare name or name with value reads back as the same attribute, whatever stopping token follows. |
| SpoolSyntax.ParseHyphenTail | spool-macros/src/ast/element.rs:79-96 | The hyphen loop stops before a token that is not `-`, and keeps the name lowercase. |
| SpoolSyntax.ParseElementName | spool-macros/src/ast/element.rs:74-100 | A missing identifier is `expected element name`. The name is lowercase, and the void flag holds exactly for the 14 void names. |
| SpoolSyntax.HyphenTailSound | spool-macros/src/ast/element.rs:79-96 | The loop consumes `-ident` pairs and appends `-` and each lowercased identifier. |
| SpoolSyntax.HyphenTailComplete | spool-macros/src/ast/element.rs:79-96 | Any sequence of `-ident` pairs is consumed in full. |
| SpoolSyntax.ElementNameSound | spool-macros/src/ast/element.rs:74-100 | A parsed name is the lowercased, hyphen-joined text of the consumed tokens. |
| SpoolSyntax.ElementNameComplete | spool-macros/src/ast/element.rs:52-100 | Every well-formed name parses, with the void flag of its text. |
| SpoolSyntax.TrailingHyphenRefused | spool-macros/src/ast/element.rs:88-90 | A name ending in `-` is `element name cannot end with hyphen`. |
| SpoolSyntax.HyphenTailRefused | spool-macros/src/ast/element.rs:88-90 | Inside the loop, a `-` without an identifier after it is that error. |
| SpoolSyntax.ParseElementAttributes | spool-macros/src/ast/element.rs:102-110 | Attributes are read until `;` or `{`. There are none when the body starts at once, and running out of input is an error. |
| SpoolSyntax.ParseNode | spool-macros/src/ast/node.rs:23-33 | A string is `Text`, a paren is `Expression` and a brace is a `Fragment`. Anything else is an element, and every result is well formed. |
| SpoolSyntax.ParseNodes | spool-macros/src/ast/node.rs:35-45 | Parses nodes until the input ends. Empty input gives no nodes. |
| SpoolSyntax.ParseElement | spool-macros/src/ast/element.rs:24-50 | An element takes its name and void flag from the name parser, and the result is well formed. |
| SpoolSyntax.VoidElementExample | spool-macros/src/ast/element.rs:24-50 | `br;` parses as a void `br` with no attributes or children. |
| SpoolSyntax.LowercasedNameExample | spool-macros/src/ast/element.rs:74-100 | `Ärger` is read as the non-void name `ärger`: the lowercasing is not limited to ASCII. |
| SpoolSyntax.EmptyFragmentExample | spool-macros/src/ast/node.rs:35-45 | `{}` is an empty fragment. |
| SpoolSyntax.AttributesRoundTrip | spool-macros/src/ast/element.rs:102-110 | Attributes written one after another read back in order, up to the `;` or block that follows them. |
| SpoolSyntax.ElementRoundTrip | spool-macros/src/ast/element.rs:24-100 | A printed element with a lowercase name reads back as itself, given that its children do. |
| SpoolSyntax.NodeRoundTrip | spool-macros/src/ast/node.rs:23-33 | Every printable node reads back as itself and leaves the tokens after it. |
| SpoolSyntax.NodesRoundTrip | spool-macros/src/ast/node.rs:35-45 | Printing a sequence of printable nodes and parsing the tokens gives the same nodes: the parser inverts the printer. |
| PlaitSyntax.ParsePound | plait-macros/src/ast/node.rs:33-58 | `#(e)` is `RawExpression`, `#doctype` is `Doctype` and `#children` is `Children`. Any other identifier, or a non-paren, is an error. |
| PlaitSyntax.ParseLet | plait-macros/src/ast/let_binding.rs:13-37 | A `let` keeps its pattern token. |
| PlaitSyntax.ParseNode | plait-macros/src/ast/node.rs:25-82 | A parsed node consumes input and is well formed: element names are kebab case, and void elements have no children. |
| PlaitSyntax.ParseNodes | plait-macros/src/ast/element.rs:67-80 | Parses nodes until the block ends. Empty content gives none. |
| PlaitSyntax.ParseBlock | plait-macros/src/ast/element.rs:67-80 | A block is a brace group; anything else is `expected curly braces`. |
| PlaitSyntax.ParseIf | plait-macros/src/ast/if_condition.rs:34-61 | `if`, one condition token and a braced then-branch. An else branch exists exactly when `@ else` follows. |
| PlaitSyntax.ParseElse | plait-macros/src/ast/if_condition.rs:63-78 | `else if` nests a whole condition to the right, and `else { }` is a plain block. |
| PlaitSyntax.ParseFor | plait-macros/src/ast/for_loop.rs:38-58 | A `for` loop keeps a well-formed body. |
| PlaitSyntax.ParseMatch | plait-macros/src/ast/match_expression.rs:24-37 | `match`, one scrutinee token and a braced list of arms. |
| PlaitSyntax.ParseArms | plait-macros/src/ast/match_expression.rs:24-37 | Arms are parsed in order until the braces end. |
| PlaitSyntax.ParseArm | plait-macros/src/ast/match_expression.rs:41-74 | A pattern, a guard exactly when `if` follows it, then a required `=>`. |
| PlaitSyntax.ArmBody | plait-macros/src/ast/match_expression.rs:52-63 | A braced body gives all its nodes; otherwise the body is exactly one node. |
| PlaitSyntax.ParseComponent | plait-macros/src/ast/component_call.rs:22-80 | `@` and a path. Without a paren group, fields and attributes are empty. |
| PlaitSyntax.ParseElement | plait-macros/src/ast/element.rs:23-88 | The name is the kebab-cased identifier, and there are no attributes without a paren group. |
| PlaitSyntax.ParseElementAttributes | plait-macros/src/ast/element.rs:33-50 | Empty parentheses give no attributes. |
| PlaitSyntax.ParseField | plait-macros/src/ast/component_call.rs:84-90 | A field is exactly `ident : expr`. |
| PlaitSyntax.ParseFields | plait-macros/src/ast/component_call.rs:36-47 | The field list ends at `;` and leaves the rest unconsumed. |
| PlaitSyntax.ParseCallAttributes | plait-macros/src/ast/component_call.rs:50-58 | Empty content gives no attributes. |
| PlaitSyntax.ParseCallArgs | plait-macros/src/ast/component_call.rs:28-58 | A leading `;` means no fields, and everything after it is attributes. |
| PlaitSyntax.FieldBack | plait-macros/src/ast/component_call.rs:84-90 | Printing a field and parsing it gives it back. |
| PlaitSyntax.FieldsRoundTrip | plait-macros/src/ast/component_call.rs:36-47 | Printing comma-separated fields followed by `;` and parsing gives the fields back in order. |
| PlaitSyntax.CallArgsSplit | plait-macros/src/ast/component_call.rs:28-58 | Fields then `;` then attributes split back into exactly those fields, and the attribute parse's result or error. |
| PlaitSyntax.ElementAttributesRoundTrip | plait-macros/src/ast/element.rs:33-50 | Comma-separated attributes read back in order inside an element's parentheses. |
| PlaitSyntax.CallAttributesRoundTrip | plait-macros/src/ast/component_call.rs:50-58 | Comma-separated attributes read back in order after a component call's `;`. |
| PlaitSyntax.CallArgsRoundTrip | plait-macros/src/ast/component_call.rs:28-58 | Printed fields, `;` and attributes read back as the same fields and attributes. |
| PlaitSyntax.PoundRoundTrip | plait-macros/src/ast/node.rs:33-58 | `#(e)`, `#doctype` and `#children` read back as themselves. |
| PlaitSyntax.LetRoundTrip | plait-macros/src/ast/let_binding.rs:13-37 | A `let` with or without a type and an initialiser reads back as itself. |
| PlaitSyntax.ForRoundTrip | plait-macros/src/ast/for_loop.rs:38-58 | A printed `for` loop reads back as itself, given that its body does. |
| PlaitSyntax.IfRoundTrip | plait-macros/src/ast/if_condition.rs:34-78 | An `if` chain with any mix of `@ else if` and a final `@ else` block reads back as itself when `@ else` does not follow it. |
| PlaitSyntax.ArmRoundTrip | plait-macros/src/ast/match_expression.rs:41-74 | An arm with or without a guard reads back as itself when no comma follows. |
| PlaitSyntax.ArmsRoundTrip | plait-macros/src/ast/match_expression.rs:24-37 | Printed arms read back in order. |
| PlaitSyntax.MatchRoundTrip | plait-macros/src/ast/match_expression.rs:24-37 | A printed `match` reads back as itself, given that its arms do. |
| PlaitSyntax.ComponentRoundTrip | plait-macros/src/ast/component_call.rs:22-80 | A component call with or without arguments reads back as itself, given that its children do. |
| PlaitSyntax.ElementRoundTrip | plait-macros/src/ast/element.rs:23-88 | An element with a kebab-case name reads back as itself, given that its children do. |
| PlaitSyntax.NodeRoundTrip | plait-macros/src/ast/node.rs:25-82 | Every printable node reads back as itself when `@ else` does not follow it. |
| PlaitSyntax.NodesRoundTrip | plait-macros/src/ast/element.rs:67-80 | Printing a sequence of printable nodes and parsing the tokens gives the same nodes: the parser inverts the printer. |
| Kebab.PiecesSplit | plait-macros/src/ast/element.rs:24-30 | Splitting at underscores loses nothing: the pieces hold no underscore and, joined with `_`, give the identifier back. |
| Kebab.NonEmpty | plait-macros/src/ast/element.rs:24-30 | Empty words are dropped. |
| Kebab.LowerAll | plait-macros/src/ast/element.rs:24-30 | Each word is lowercased. |
| Kebab.KebabIsKebab | plait-macros/src/ast/element.rs:24-30 | A converted name has no underscore and no upper-case letter. |
| Kebab.KebabOfKebab | plait-macros/src/ast/element.rs:24-30 | A name already in kebab case is unchanged. |
| Kebab.KebabIdempotent | plait-macros/src/ast/element.rs:24-30 | Converting twice is converting once. |
| Kebab.TwoWords | plait-macros/src/ast/element.rs:24-30 | `custom_element` becomes `custom-element`. |
| SpoolLower.ModeOf | spool-macros/src/codegen/render.rs:56-72 | No suffix gives no mode; `raw` and `html` give the runtime's `Raw` and `Html`. |
| SpoolLower.LowerNodesAppend | spool-macros/src/codegen/render.rs:74-78 | Lowering a list is concatenation, so a fragment adds no operations of its own. |
| SpoolLower.ExecAppend | spool-macros/src/codegen/render.rs:91-168 | Running two operation lists in a row is running their concatenation, and the first error stops the run. |
| SpoolLower.AttributeStep | spool-macros/src/codegen/render.rs:102-158 | Each attribute's operation, run inside a start tag, appends that attribute's markup. |
| SpoolLower.RunAttributes | spool-macros/src/codegen/render.rs:102-158 | A spread-free attribute list, run inside a start tag, appends each attribute's markup in order. |
| SpoolLower.RunNode | spool-macros/src/codegen/render.rs:49-241 | Running a lowered spread-free tree whose void elements have no children never fails, leaves the open elements as they were and writes exactly the tree's markup. |
| SpoolLower.RunNodes | spool-macros/src/codegen/render.rs:74-78 | The same for a node list: the markups in order. |
| SpoolLower.RunIf | spool-macros/src/codegen/render.rs:170-219 | An `if` chain writes the markup of the branch its conditions select, or nothing. |
| SpoolLower.RunRepeat | spool-macros/src/codegen/render.rs:221-241 | A `for` loop writes its body's markup once per iteration. |
| SpoolLower.RunElement | spool-macros/src/codegen/render.rs:91-168 | An element writes its start tag, attributes, children and, unless void, its end tag. |
| SpoolLower.ExecThenEnd | spool-macros/src/codegen/render.rs:91-168 | The closing `end_element` acts on the state the element's other operations leave. |
| SpoolLower.VoidChildRefused | spool-macros/src/codegen/render.rs:91-168 | A void element given text children fails with `ContentInVoidElement`. The parser never builds such a tree. |
| SpoolLower.SpreadStops | spool-macros/src/codegen/render.rs:156 | A spread attribute calls a formatter method spool does not define, so its code cannot run. |
| SpoolLower.ParsedAreLowerable | spool-macros/src/ast/element.rs:28-38 | Every parsed tree without spreads meets the theorem's precondition, because the parser gives void elements no children. |
| PlaitLower.LowerAttributes | plait-macros/src/codegen/statements.rs:221-249 | One statement per attribute, in order. |
| PlaitLower.LowerArms | plait-macros/src/codegen/statements.rs:121-169 | One arm per arm, in order, each keeping its pattern and guard. |
| PlaitLower.ExecAppend | plait-macros/src/codegen/statements.rs:10-46 | Running statement lists in a row is running their concatenation. |
| PlaitLower.ExecOne | plait-macros/src/codegen/statements.rs:10-46 | A one-statement list runs that statement. |
| PlaitLower.TextAttributeWrites | plait-macros/src/codegen/statements.rs:261-271 | A text attribute's statement writes its markup, URL-checked when the name is a URL attribute. |
| PlaitLower.RawAttributeWrites | plait-macros/src/codegen/statements.rs:272-290 | A raw value writes `write_attribute_raw`, or the raw maybe writer for a maybe. |
| PlaitLower.OptionalUrlAttributeWrites | plait-macros/src/codegen/statements.rs:291-319 | A maybe URL expression goes through the optional URL writer. |
| PlaitLower.MaybeAttributeWrites | plait-macros/src/codegen/statements.rs:291-319 | A maybe expression that is not a URL goes through the escaped maybe writer. |
| PlaitLower.PlainExprAttributeWrites | plait-macros/src/codegen/statements.rs:291-319 | A plain expression goes through the escaped writer, or the URL writer for URL names. |
| PlaitLower.AttributeWrites | plait-macros/src/codegen/statements.rs:251-329 | Every reachable attribute form writes its reference markup. |
| PlaitLower.AttributesWrite | plait-macros/src/codegen/statements.rs:221-249 | An attribute list writes each attribute's markup in order. |
| PlaitLower.LeafWrites | plait-macros/src/codegen/statements.rs:12-31 | Text writes escaped text, an expression its rendering, a raw expression its text, and `#children` the children closure's output. |
| PlaitLower.NodeWrites | plait-macros/src/codegen/statements.rs:10-249 | Running the statements lowered from any reachable tree writes exactly the tree's markup. |
| PlaitLower.NodesWrite | plait-macros/src/codegen/statements.rs:10-46 | A node list writes the markups in order. |
| PlaitLower.IfWrites | plait-macros/src/codegen/statements.rs:48-97 | An `if` chain writes the selected branch's markup. |
| PlaitLower.RepeatWrites | plait-macros/src/codegen/statements.rs:99-119 | A loop writes its body's markup once per iteration. |
| PlaitLower.ArmsWrite | plait-macros/src/codegen/statements.rs:121-169 | A `match` writes the markup of the first arm whose pattern and guard match, or nothing. |
| PlaitLower.StartTagWrites | plait-macros/src/codegen/statements.rs:221-249 | `open_tag`, the attributes and `close_start_tag` write `<name attrs>`. |
| PlaitLower.BodyWrites | plait-macros/src/codegen/statements.rs:221-249 | A non-void element's children and `close_tag` write the children's markup and `</name>`. |
| PlaitLower.ComponentWrites | plait-macros/src/codegen/statements.rs:171-219 | A component call passes its fields, its attributes' markup and its children's markup to the component. |
| PlaitLower.ElementWrites | plait-macros/src/codegen/statements.rs:221-249 | An element writes its start tag and, unless void, its children and end tag. |
| PlaitLower.ElementPartsWrite | plait-macros/src/codegen/statements.rs:221-249 | For an element given by name, void flag, attributes and children, the code writes the start tag and, unless void, the children's markup and the end tag. |
| PlaitLower.NormalPartsWrite | plait-macros/src/codegen/statements.rs:221-249 | For a non-void element, the code writes the start tag, the children's markup and the end tag, in that order. |
| PlaitLower.UrlAttributeIsChecked | plait-macros/src/codegen/statements.rs:261-319 | A URL attribute writes nothing, or an escaped value that is a safe URL under a URL attribute name. |
| PlaitLower.VoidChildrenIgnored | plait-macros/src/codegen/statements.rs:221-249 | A void element's code does not depend on its children and has no `close_tag`. |
| PlaitAttrsLower.ModeOf | plait-macros/src/codegen/attrs.rs:43-63 | No suffix gives no mode; `raw` and `html` give `Raw` and `Html`. |
| PlaitAttrsLower.Calls | plait-macros/src/codegen/attrs.rs:37-95 | One call per attribute, in source order. |
| PlaitAttrsLower.AttrsImpl | plait-macros/src/codegen/attrs.rs:29-104 | The capacity equals the number of calls, which equals the number of attributes. |
| PlaitAttrsLower.RunCallsAppend | plait-macros/src/codegen/attrs.rs:37-95 | Running calls in a row is running their concatenation. |
| PlaitAttrsLower.CallsAppend | plait-macros/src/codegen/attrs.rs:37-95 | The calls of concatenated attribute lists are the concatenated calls. |
| PlaitAttrsLower.SpreadsValidOfAttrs | plait-macros/src/codegen/attrs.rs:90-95 | Well-formed spread values give well-formed merge arguments. |
| PlaitAttrsLower.RunCallsValid | plait-macros/src/codegen/attrs.rs:37-95 | Running the calls keeps the collection's keys unique. |
| PlaitAttrsLower.EvalValid | plait-macros/src/codegen/attrs.rs:29-104 | The collection the generated code builds has unique keys. |
| PlaitAttrsLower.UnmentionedStaysOut | plait-macros/src/codegen/attrs.rs:37-95 | Without spreads, a name no attribute mentions stays absent. |
| PlaitAttrsLower.OnlyMentionedNames | plait-macros/src/codegen/attrs.rs:29-104 | Without spreads, the built collection holds only names the template mentions. |
| PlaitAttrsLower.LastLiteralWins | plait-macros/src/codegen/attrs.rs:43-50 | A trailing literal attribute other than `class` holds its literal value, stored raw. |
| PlaitAttrsLower.LastBareNameWins | plait-macros/src/codegen/attrs.rs:80-88 | A trailing valueless attribute holds no value. |
| PlaitAttrsLower.AbsentValuesAddNothing | plait-macros/src/codegen/attrs.rs:64-79 | An absent optional value and a false flag add nothing. |
| Desugar.LifetimesTy | plait-macros/src/desugar.rs:61-94 | The output walks the input in step (`LtFilledTy`): the k-th elided or `'_` lifetime in traversal order becomes `'plait_{n+k}`, and every other lifetime, path, mutability and bound is kept. Exactly that many lifetimes are added. |
| Desugar.LifetimesArg | plait-macros/src/desugar.rs:82-94 | The same relation for one generic argument: a `'_` argument is named, a named one kept. |
| Desugar.LifetimesArgs | plait-macros/src/desugar.rs:82-94 | The same relation for an argument list, numbering running on from each argument to the next. |
| Desugar.LifetimesBound | plait-macros/src/desugar.rs:82-94 | The same relation for one bound: a lifetime bound is kept as it is. |
| Desugar.LifetimesBounds | plait-macros/src/desugar.rs:82-94 | The same relation for a bound list, numbering running on. |
| Desugar.ImplTy | plait-macros/src/desugar.rs:112-138 | The output walks the input in step (`ImplFilledTy`): the k-th `impl Trait` becomes the path `P{n+k}`, the k-th new parameter is `P{n+k}` with that `impl`'s bounds, and everything else, lifetimes included, is kept. No `impl` is left. |
| Desugar.ImplArg | plait-macros/src/desugar.rs:128-138 | The same relation for one generic argument; a lifetime argument makes no parameter. |
| Desugar.ImplArgs | plait-macros/src/desugar.rs:128-138 | The same relation for an argument list, the parameters of each argument following those of the one before. |
| Desugar.LifetimeParams | plait-macros/src/desugar.rs:26-43 | New lifetimes become lifetime parameters in order. |
| Desugar.TypeParams | plait-macros/src/desugar.rs:26-43 | New type parameters become generic parameters in order. |
| Desugar.DesugarFields | plait-macros/src/desugar.rs:17-44 | Field names are kept and no field type has a hole or an `impl` left. The generics are the new lifetimes, then the original parameters unchanged, then the new type parameters. The new type parameters and the field types are related field by field (`DesugaredFields`): each type is its input with holes named and `impl`s replaced, numbering running on across fields, and each parameter's bounds are its `impl`'s bounds with their holes named. |
| Desugar.ComposeTy | plait-macros/src/desugar.rs:21-24 | The lifetime pass followed by the `impl Trait` pass on the same type gives the combined relation `DesugaredTy`. |
| Desugar.DesugarField | plait-macros/src/desugar.rs:21-24 | One field's type through both passes is desugared (`DesugaredTy`), its name kept, with the lifetimes and parameters it adds appended. |
| Desugar.WalkDesugars | plait-macros/src/desugar.rs:17-24 | The field walk relates every field to its output (`DesugaredFields`), the numbers running on from field to field. |
| Desugar.NumberedDistinct | plait-macros/src/desugar.rs:61-66 | Different counters give different numbered names. |
| Desugar.FreshDistinct | plait-macros/src/desugar.rs:61-125 | Fresh lifetimes are pairwise distinct, and so are fresh parameter names. |
| Desugar.NewParamsDistinct | plait-macros/src/desugar.rs:17-44 | The lifetimes added to the generics are pairwise distinct. |
| Desugar.NothingToDesugar | plait-macros/src/desugar.rs:310-317 | Types needing nothing leave fields and generics unchanged. |
| Desugar.NestedReferences | plait-macros/src/desugar.rs:212-218 | `&&str` gets two lifetimes, the outer one first. |
| Desugar.NamedLifetimeStays | plait-macros/src/desugar.rs:203-210 | A reference with a named lifetime is unchanged and adds no parameter. |
| Text.NatToStringInjective | plait-macros/src/desugar.rs:61-66 | Different counters print differently. This is what keeps the numbered names apart. |
| Text.DecimalValueOfNatToString | plait-macros/src/desugar.rs:61-66 | Reading a printed counter back gives the counter. |

## Left out

- Floating-point rendering (`ryu`, spool/src/render.rs:41-81 and plait/src/render.rs:120-166) is
  not modelled. Integers are modelled as unbounded values printed in decimal, so the widths of
  Rust's integer types do not appear.
- Url.PercentDecode: decodes `%XX` only to ASCII characters. A decoded byte of 0x80 or more is
  treated as invalid UTF-8, whereas the source accepts a valid multi-byte sequence, so some
  URLs with percent-encoded non-ASCII text are refused here and accepted by the source.
- Entities.Unescape: recognises the five references the escaper writes, `&apos;`, and numeric
  references. It is not `hescape`'s full entity table, and that crate is not part of this
  model.
- Kebab.KebabCase: converts on underscore boundaries with ASCII case only. It stands in for the
  `convert_case` crate, which is not part of this model.
- Text.LowerAscii: only ASCII letters are lowercased, as `to_ascii_lowercase` does. This is the
  lowercasing of URL schemes, of the formatter's void check and of plait's kebab-cased names.
- Text.ToLowercase: spool's element names are lowercased with `to_lowercase`, which covers all
  of Unicode. The model lowers the capitals of the ASCII, Latin-1 Supplement, Greek and basic
  Cyrillic blocks, each to its one lower-case partner. Capitals of other blocks are kept, and so
  are the two-character lowering of `İ` and the word-final `ς` that `str::to_lowercase` writes
  for `Σ`.
- SpoolSyntax.ParseHyphenTail: lowercases names with `Text.ToLowercase`, so the gap just above applies.
- SpoolSyntax.ParseElementName: lowercases names with `Text.ToLowercase`, so the gap just above applies.
- SpoolSyntax.HyphenTailSound: lowercases names with `Text.ToLowercase`, so the gap just above applies.
- SpoolSyntax.HyphenTailComplete: lowercases names with `Text.ToLowercase`, so the gap just above applies.
- SpoolSyntax.ElementNameSound: lowercases names with `Text.ToLowercase`, so the gap just above applies.
- SpoolSyntax.ElementNameComplete: lowercases names with `Text.ToLowercase`, so the gap just above applies.
- The HTML escaper of plait (plait/src/escape/html.rs) is a wrapper over `hescape`. spool's
  `escape_html` specification stands in for it.
- plait/src/escape/url.rs and plait/src/url.rs contain the same sanitiser. It is modelled once,
  in `Url`, and rows cite whichever file states the point.
- plait-macros' `attribute_name.rs`, spool-macros' `attribute_value.rs`, spool-macros' `escape.rs`
  and spool-macros' `if_condition.rs` are not part of this model. The spool name grammar and the
  plait value and mode parsers stand in for their counterparts, and spool's `if` and `for`
  nodes enter the generator model directly.
- The `println!` at spool/src/attributes.rs:93 is output only and is left out.
- Host expressions, patterns, types and paths are single tokens. An opaque token or a
  non-keyword identifier may be any of them. A string literal may be an expression or a pattern,
  but never a type or a path. `syn`'s boundary finding is not modelled, and neither are trailing
  tokens inside a group beyond the single-token rule.
- Closures, `Component::render`, `HtmlDisplay` values and loop iteration are host behaviour.
  They are parameters of `Env`. Every loop iteration sees the same environment, so a loop
  body's output does not depend on the iteration variable.
- SpoolLower.RunNode: holds only for trees without spread attributes and whose void elements
  have no children. A spread calls `spread_attributes`, which spool's formatter does not define
  (`SpreadStops`). A void element with children is refused at run time (`VoidChildRefused`).
  The parser never builds such a tree (`ParsedAreLowerable`).
- PlaitLower.NodeWrites: requires that no maybe attribute lacks a value, because
  plait-macros/src/codegen/statements.rs:320 marks that case unreachable. It also requires
  that each element's void flag agrees with plait's void check, as the parser guarantees.
- PlaitAttrsLower.AttrsImpl: the capacity is a hint only (`PlaitAttributes.WithCapacity`
  equals `New`), so the model states the count and not any allocation.
- Desugar.DesugarFields: types are references, paths with generic arguments, `impl Trait` and
  slices. Tuples, arrays, function pointers and trait objects are not modelled.
- The printers (`AttrSyntax.PrintAttribute`, `SpoolSyntax.PrintNodes`, `PlaitSyntax.PrintNodes`)
  exist only to state the round trips. They cover the trees they can write back. A name is one
  identifier token, so names with `-` or `.` separators are not printed. spool element names
  must already be lowercase and plait element names kebab case and not `let`, `if`, `for` or
  `match`. Host pieces must be single host tokens of the right kind. plait arms are printed with
  braced bodies and no commas, and attributes in an element's parentheses with commas.
- The `let` and `for` parsers defer to `syn` for patterns and types, so `ParseLet` and
  `ParseFor` take each of those as one token.
- Proc-macro plumbing (`quote!` output, spans, compile errors), the closure and trait-object
  composition files, and the newtype wrappers are not modelled. They have no behaviour beyond
  the Rust type system.
