/**
 * The `style` module's text generation: `mergeSettings`, which fills
 * `%colors:key%`, `%font:key%` and `%images:key%` placeholders in a style value,
 * and the CSS text `load` builds for each class before appending it to a
 * `<style>` element.
 */
module Style {
  import opened Values
  import opened Strings

  // ------------------------------------------------------------ mergeSettings

  /** The three setting groups, each in the order `forEach` enumerates its keys. */
  datatype Settings = Settings(colors: seq<(string, string)>, font: seq<(string, string)>, images: seq<(string, string)>)

  /** The placeholder for `key` of `group`: `'%' + group + ':' + key + '%'`. */
  function Pattern(group: string, key: string): (p: string)
    ensures |p| >= 3 && p[0] == '%' && p[|p| - 1] == '%'
  {
    "%" + group + ":" + key + "%"
  }

  /** One iteration of a group's loop: when the placeholder for `entry`'s key
      occurs in `val`, its first occurrence becomes `entry`'s value. */
  function Substitute(val: string, group: string, entry: (string, string)): string
  {
    var p := Pattern(group, entry.0);
    if IndexOf(val, p) != -1 then ReplaceFirst(val, p, entry.1) else val
  }

  /** A whole group's loop: each key in turn, on the text the earlier keys left. */
  function ReplaceGroup(val: string, group: string, items: seq<(string, string)>): string
    decreases |items|
  {
    if items == [] then val
    else Substitute(ReplaceGroup(val, group, items[..|items| - 1]), group, items[|items| - 1])
  }

  /** `mergeSettings(val, settings)`: the colors, then the font, then the images. */
  function MergeSpec(val: string, settings: Settings): string
  {
    ReplaceGroup(ReplaceGroup(ReplaceGroup(val, "colors", settings.colors), "font", settings.font),
                 "images", settings.images)
  }

  /** The `util.forEach` loop over one group of settings. */
  method ApplyGroup(val: string, group: string, items: seq<(string, string)>) returns (r: string)
    ensures r == ReplaceGroup(val, group, items)
  {
    r := val;
    var i := 0;
    while i < |items|
      invariant 0 <= i <= |items|
      invariant r == ReplaceGroup(val, group, items[..i])
    {
      var (key, item) := items[i];
      var p := "%" + group + ":" + key + "%";
      if IndexOf(r, p) != -1 {
        r := ReplaceFirst(r, p, item);
      }
      assert items[..i + 1][..i] == items[..i];
      i := i + 1;
    }
    assert items[..i] == items;
  }

  /** `mergeSettings(val, settings)`. */
  method MergeSettings(val: string, settings: Settings) returns (r: string)
    ensures r == MergeSpec(val, settings)
  {
    r := ApplyGroup(val, "colors", settings.colors);
    r := ApplyGroup(r, "font", settings.font);
    r := ApplyGroup(r, "images", settings.images);
  }

  /** Only the first occurrence of a placeholder is replaced: whatever follows it,
      a second occurrence included, is kept as it is. */
  lemma SubstituteFirstOnly(before: string, group: string, key: string, item: string, after: string)
    requires forall k: nat :: k < |before| ==> !OccursAt(before + Pattern(group, key) + after, Pattern(group, key), k)
    ensures Substitute(before + Pattern(group, key) + after, group, (key, item)) == before + item + after
  {
    var p := Pattern(group, key);
    var s := before + p + after;
    assert s[|before|..|before| + |p|] == p;
    assert OccursAt(s, p, |before|);
    assert IndexOf(s, p) == |before|;
    assert s[..|before|] == before && s[|before| + |p|..] == after;
  }

  /** A group whose placeholders all are absent from `val` leaves it unchanged. */
  lemma {:induction false} ReplaceGroupAbsent(val: string, group: string, items: seq<(string, string)>)
    requires forall e :: e in items ==> IndexOf(val, Pattern(group, e.0)) == -1
    ensures ReplaceGroup(val, group, items) == val
    decreases |items|
  {
    if items != [] {
      var init := items[..|items| - 1];
      assert forall e :: e in init ==> e in items;
      ReplaceGroupAbsent(val, group, init);
      assert items[|items| - 1] in items;
    }
  }

  /** A value containing none of the placeholders of its settings is returned
      unchanged. */
  lemma MergeWithoutPlaceholders(val: string, settings: Settings)
    requires forall e :: e in settings.colors ==> IndexOf(val, Pattern("colors", e.0)) == -1
    requires forall e :: e in settings.font ==> IndexOf(val, Pattern("font", e.0)) == -1
    requires forall e :: e in settings.images ==> IndexOf(val, Pattern("images", e.0)) == -1
    ensures MergeSpec(val, settings) == val
  {
    ReplaceGroupAbsent(val, "colors", settings.colors);
    ReplaceGroupAbsent(val, "font", settings.font);
    ReplaceGroupAbsent(val, "images", settings.images);
  }

  /** In particular a value without any `%` is returned unchanged. */
  lemma MergeWithoutPercent(val: string, settings: Settings)
    requires forall k :: 0 <= k < |val| ==> val[k] != '%'
    ensures MergeSpec(val, settings) == val
  {
    forall group: string, key: string ensures IndexOf(val, Pattern(group, key)) == -1 {
      var p := Pattern(group, key);
      forall k: nat ensures !OccursAt(val, p, k) {
      }
    }
    MergeWithoutPlaceholders(val, settings);
  }

  /** A group holding one key replaces that key's placeholder, when it is the
      whole value, by the key's value. */
  lemma ReplaceSingle(group: string, key: string, item: string)
    ensures ReplaceGroup(Pattern(group, key), group, [(key, item)]) == item
  {
    var p := Pattern(group, key);
    SubstituteFirstOnly("", group, key, item, "");
    assert "" + p + "" == p;
    assert "" + item + "" == item;
    assert [(key, item)][..0] == [];
  }

  /** Colors run before fonts: a color whose value is a font placeholder is
      filled in again by the font group. */
  lemma ColorsBeforeFont(c: string, f: string, v: string)
    ensures MergeSpec(Pattern("colors", c), Settings([(c, Pattern("font", f))], [(f, v)], [])) == v
  {
    ReplaceSingle("colors", c, Pattern("font", f));
    ReplaceSingle("font", f, v);
  }

  /** ... and not the other way round: a font whose value is a color placeholder
      stays as it is, unless that placeholder already occurs in the font's own. */
  lemma FontAfterColors(c: string, f: string, v: string)
    requires IndexOf(Pattern("font", f), Pattern("colors", c)) == -1
    ensures MergeSpec(Pattern("font", f), Settings([(c, v)], [(f, Pattern("colors", c))], []))
            == Pattern("colors", c)
  {
    var font := Pattern("font", f);
    assert [(c, v)][..0] == [];
    assert ReplaceGroup(font, "colors", [(c, v)]) == font;
    ReplaceSingle("font", f, Pattern("colors", c));
  }

  // --------------------------------------------------------------------- load

  /** A style of a class: a plain value, an array of values, or (under an
      `@media...` name) an object of declarations. */
  datatype StyleValue =
    | Plain(value: string)
    | Multi(values: seq<string>)
    | Media(rules: seq<(string, string)>)

  /** `styleName.indexOf('@media') === 0`. */
  predicate IsMedia(name: string)
  {
    OccursAt(name, "@media", 0)
  }

  /** The class objects `load` is given: plain values never under an `@media`
      name, nested objects only under one (the other combinations hand a string
      or an object to the wrong branch). */
  predicate WellFormed(rules: seq<(string, StyleValue)>)
  {
    forall i :: 0 <= i < |rules| ==>
      (rules[i].1.Plain? ==> !IsMedia(rules[i].0)) && (rules[i].1.Media? ==> IsMedia(rules[i].0))
  }

  /** `styleName + ': ' + mergeSettings(value, settings) + ';'`. */
  function Declaration(name: string, value: string, settings: Settings): string
  {
    name + ": " + MergeSpec(value, settings) + ";"
  }

  /** An array-valued style: one declaration per element, all under `name`. */
  function Declarations(name: string, values: seq<string>, settings: Settings): string
    decreases |values|
  {
    if values == [] then ""
    else Declarations(name, values[..|values| - 1], settings) + Declaration(name, values[|values| - 1], settings)
  }

  /** The declarations inside an `@media` block. */
  function MediaDeclarations(rules: seq<(string, string)>, settings: Settings): string
    decreases |rules|
  {
    if rules == [] then ""
    else
      var last := rules[|rules| - 1];
      MediaDeclarations(rules[..|rules| - 1], settings) + Declaration(last.0, last.1, settings)
  }

  /** What one style adds to the class block: its declaration, or one per element
      of an array; an `@media` style adds nothing there. */
  function BodyPart(rule: (string, StyleValue), settings: Settings): string
  {
    match rule.1
    case Plain(v) => Declaration(rule.0, v, settings)
    case Multi(vs) => Declarations(rule.0, vs, settings)
    case Media(_) => ""
  }

  /** What one style adds after the class block: `styleName{className{...}}` for
      an `@media` style, nothing otherwise. */
  function MediaPart(className: string, rule: (string, StyleValue), settings: Settings): string
  {
    match rule.1
    case Media(ds) => rule.0 + "{" + className + "{" + MediaDeclarations(ds, settings) + "}}"
    case _ => ""
  }

  /** What `css` gains from the class's styles, in order. */
  function ClassBody(rules: seq<(string, StyleValue)>, settings: Settings): string
    decreases |rules|
  {
    if rules == [] then ""
    else ClassBody(rules[..|rules| - 1], settings) + BodyPart(rules[|rules| - 1], settings)
  }

  /** What `othercss` gains from the class's styles, in order. */
  function MediaText(className: string, rules: seq<(string, StyleValue)>, settings: Settings): string
    decreases |rules|
  {
    if rules == [] then ""
    else MediaText(className, rules[..|rules| - 1], settings) + MediaPart(className, rules[|rules| - 1], settings)
  }

  /** The text appended for one class: its block, then its `@media` blocks. */
  function ClassCss(className: string, rules: seq<(string, StyleValue)>, settings: Settings): string
  {
    className + "{" + ClassBody(rules, settings) + "}" + MediaText(className, rules, settings)
  }

  /** The inner `util.forEach(cls, ...)` of `load`, for one class. */
  method ClassText(className: string, rules: seq<(string, StyleValue)>, settings: Settings) returns (css: string)
    requires WellFormed(rules)
    ensures css == ClassCss(className, rules, settings)
  {
    css := className + "{";
    var othercss := "";
    var i := 0;
    while i < |rules|
      invariant 0 <= i <= |rules|
      invariant css == className + "{" + ClassBody(rules[..i], settings)
      invariant othercss == MediaText(className, rules[..i], settings)
    {
      ghost var body := ClassBody(rules[..i], settings);
      css, othercss := AddStyle(className, rules[i], css, othercss, settings);
      StyleStep(className, rules, i, settings);
      AppendAssoc(className + "{", body, BodyPart(rules[i], settings));
      i := i + 1;
    }
    assert rules[..i] == rules;
    css := css + "}" + othercss;
  }

  /** The function `load` hands to `util.forEach(cls, ...)`: one style of a class
      extends `css` and `othercss` by its parts. */
  method AddStyle(className: string, rule: (string, StyleValue), css: string, othercss: string, settings: Settings)
    returns (css': string, othercss': string)
    requires rule.1.Plain? ==> !IsMedia(rule.0)
    requires rule.1.Media? ==> IsMedia(rule.0)
    ensures css' == css + BodyPart(rule, settings)
    ensures othercss' == othercss + MediaPart(className, rule, settings)
  {
    var (styleName, style) := rule;
    css', othercss' := css, othercss;
    if style.Multi? {
      css' := AppendDeclarations(css', styleName, style.values, settings);
    } else if IsMedia(styleName) {
      othercss' := othercss' + styleName + "{" + className + "{";
      othercss' := AppendMediaDeclarations(othercss', style.rules, settings);
      othercss' := othercss' + "}}";
      MediaAppend(othercss, styleName, className, MediaDeclarations(style.rules, settings));
    } else {
      var merged := MergeSettings(style.value, settings);
      css' := css' + (styleName + ": " + merged + ";");
    }
  }

  lemma MediaAppend(o: string, name: string, className: string, ds: string)
    ensures o + name + "{" + className + "{" + ds + "}}" == o + (name + "{" + className + "{" + ds + "}}")
  {
  }

  /** One more style extends the class block and the `@media` text by its parts. */
  lemma StyleStep(className: string, rules: seq<(string, StyleValue)>, i: nat, settings: Settings)
    requires i < |rules|
    ensures ClassBody(rules[..i + 1], settings) == ClassBody(rules[..i], settings) + BodyPart(rules[i], settings)
    ensures MediaText(className, rules[..i + 1], settings)
            == MediaText(className, rules[..i], settings) + MediaPart(className, rules[i], settings)
  {
    assert rules[..i + 1][..i] == rules[..i];
  }

  /** The `util.forEach(style, ...)` over an array-valued style. */
  method AppendDeclarations(css: string, name: string, values: seq<string>, settings: Settings) returns (out: string)
    ensures out == css + Declarations(name, values, settings)
  {
    out := css;
    var j := 0;
    while j < |values|
      invariant 0 <= j <= |values|
      invariant out == css + Declarations(name, values[..j], settings)
    {
      var merged := MergeSettings(values[j], settings);
      out := out + (name + ": " + merged + ";");
      assert values[..j + 1][..j] == values[..j];
      j := j + 1;
    }
    assert values[..j] == values;
  }

  /** The `util.forEach(style, ...)` over the declarations of an `@media` style. */
  method AppendMediaDeclarations(othercss: string, rules: seq<(string, string)>, settings: Settings) returns (out: string)
    ensures out == othercss + MediaDeclarations(rules, settings)
  {
    out := othercss;
    var j := 0;
    while j < |rules|
      invariant 0 <= j <= |rules|
      invariant out == othercss + MediaDeclarations(rules[..j], settings)
    {
      var (osName, otherstyle) := rules[j];
      var merged := MergeSettings(otherstyle, settings);
      out := out + (osName + ": " + merged + ";");
      assert rules[..j + 1][..j] == rules[..j];
      j := j + 1;
    }
    assert rules[..j] == rules;
  }

  /** `style.load(obj, settings)`: the text appended to the `<style>` element for
      each class, in order. */
  method Load(sheet: seq<(string, seq<(string, StyleValue)>)>, settings: Settings) returns (appended: seq<string>)
    requires forall c :: 0 <= c < |sheet| ==> WellFormed(sheet[c].1)
    ensures |appended| == |sheet|
    ensures forall c :: 0 <= c < |sheet| ==> appended[c] == ClassCss(sheet[c].0, sheet[c].1, settings)
  {
    appended := [];
    var c := 0;
    while c < |sheet|
      invariant 0 <= c <= |sheet|
      invariant |appended| == c
      invariant forall d :: 0 <= d < c ==> appended[d] == ClassCss(sheet[d].0, sheet[d].1, settings)
    {
      var css := ClassText(sheet[c].0, sheet[c].1, settings);
      appended := appended + [css];
      c := c + 1;
    }
  }

  /** The declarations of an array-valued style follow the element order. */
  lemma {:induction false} DeclarationsSplit(name: string, a: seq<string>, b: seq<string>, settings: Settings)
    ensures Declarations(name, a + b, settings) == Declarations(name, a, settings) + Declarations(name, b, settings)
    decreases |b|
  {
    if b == [] {
      assert a + b == a;
    } else {
      var b' := b[..|b| - 1];
      assert (a + b)[..|a + b| - 1] == a + b';
      DeclarationsSplit(name, a, b', settings);
    }
  }

  /** An array-valued style yields `name: v;` for each element `v`, in order. */
  lemma {:induction false} DeclarationsEach(name: string, values: seq<string>, settings: Settings)
    ensures values != [] ==>
              Declarations(name, values, settings)
              == Declaration(name, values[0], settings) + Declarations(name, values[1..], settings)
  {
    if values != [] {
      assert values == [values[0]] + values[1..];
      DeclarationsSplit(name, [values[0]], values[1..], settings);
      assert [values[0]][..0] == [];
    }
  }

  /** The class body follows the order of the class's styles. */
  lemma {:induction false} ClassBodySplit(a: seq<(string, StyleValue)>, b: seq<(string, StyleValue)>, settings: Settings)
    ensures ClassBody(a + b, settings) == ClassBody(a, settings) + ClassBody(b, settings)
    decreases |b|
  {
    if b == [] {
      assert a + b == a;
    } else {
      var b' := b[..|b| - 1];
      assert (a + b)[..|a + b| - 1] == a + b';
      assert (a + b)[|a + b| - 1] == b[|b| - 1];
      ClassBodySplit(a, b', settings);
      assert ClassBody(a + b, settings) == ClassBody(a + b', settings) + BodyPart(b[|b| - 1], settings);
    }
  }

  /** The `@media` blocks follow the order of the class's styles. */
  lemma {:induction false} MediaTextSplit(className: string, a: seq<(string, StyleValue)>, b: seq<(string, StyleValue)>, settings: Settings)
    ensures MediaText(className, a + b, settings) == MediaText(className, a, settings) + MediaText(className, b, settings)
    decreases |b|
  {
    if b == [] {
      assert a + b == a;
    } else {
      var b' := b[..|b| - 1];
      assert (a + b)[..|a + b| - 1] == a + b';
      MediaTextSplit(className, a, b', settings);
    }
  }

  /** An `@media` style adds nothing inside the class block and adds
      `name{className{...}}` after its closing brace. */
  lemma MediaOutsideClass(className: string, rules: seq<(string, StyleValue)>, name: string,
                          ds: seq<(string, string)>, settings: Settings)
    ensures var rs := rules + [(name, Media(ds))];
            && ClassBody(rs, settings) == ClassBody(rules, settings)
            && MediaText(className, rs, settings)
               == MediaText(className, rules, settings) + name + "{" + className + "{" + MediaDeclarations(ds, settings) + "}}"
  {
    var rs := rules + [(name, Media(ds))];
    assert rs[..|rs| - 1] == rules;
  }

  /** A class without `@media` styles is just `className{declarations}`. */
  lemma {:induction false} ClassWithoutMedia(className: string, rules: seq<(string, StyleValue)>, settings: Settings)
    requires forall i :: 0 <= i < |rules| ==> !rules[i].1.Media?
    ensures ClassCss(className, rules, settings) == className + "{" + ClassBody(rules, settings) + "}"
  {
    MediaTextEmpty(className, rules, settings);
  }

  lemma {:induction false} MediaTextEmpty(className: string, rules: seq<(string, StyleValue)>, settings: Settings)
    requires forall i :: 0 <= i < |rules| ==> !rules[i].1.Media?
    ensures MediaText(className, rules, settings) == ""
    decreases |rules|
  {
    if rules != [] {
      MediaTextEmpty(className, rules[..|rules| - 1], settings);
    }
  }

  lemma MergeExampleColor()
    ensures MergeSpec("%colors:main%", Settings([("main", "red")], [], [])) == "red"
  {
    var p := Pattern("colors", "main");
    SubstituteFirstOnly("", "colors", "main", "red", "");
    assert "" + p + "" == p && p == "%colors:main%";
    assert ReplaceGroup("%colors:main%", "colors", [("main", "red")]) == "red";
  }

  lemma MergeExampleZero()
    ensures MergeSpec("0", Settings([("main", "red")], [], [])) == "0"
  {
    var p := Pattern("colors", "main");
    assert |p| > 1;
    assert IndexOf("0", p) == -1;
    assert ReplaceGroup("0", "colors", [("main", "red")]) == "0";
  }

  /** A class with a colored declaration and an `@media` block, and its settings. */
  const ExampleRules: seq<(string, StyleValue)> :=
    [("color", Plain("%colors:main%")), ("@media print", Media([("top", "0")]))]
  const ExampleSettings: Settings := Settings([("main", "red")], [], [])

  lemma ExampleBody()
    ensures ClassBody(ExampleRules, ExampleSettings) == "color: red;"
  {
    var rules, s := ExampleRules, ExampleSettings;
    MergeExampleColor();
    assert BodyPart(rules[0], s) == "color: red;";
    assert BodyPart(rules[1], s) == "";
    assert rules[..1] == [rules[0]] && [rules[0]][..0] == [];
    assert ClassBody(rules[..1], s) == "color: red;";
  }

  lemma ExampleMedia()
    ensures MediaText(".a", ExampleRules, ExampleSettings) == "@media print{.a{top: 0;}}"
  {
    var rules, s := ExampleRules, ExampleSettings;
    MergeExampleZero();
    assert [("top", "0")][..0] == [];
    assert MediaDeclarations([("top", "0")], s) == "top: 0;";
    assert MediaPart(".a", rules[0], s) == "";
    assert MediaPart(".a", rules[1], s) == "@media print{.a{top: 0;}}";
    assert rules[..1] == [rules[0]] && [rules[0]][..0] == [];
    assert MediaText(".a", rules[..1], s) == "";
  }

  /** The text `load` appends for the example class. */
  lemma LoadExample()
    ensures ClassCss(".a", ExampleRules, ExampleSettings)
            == ".a" + "{" + "color: red;" + "}" + "@media print{.a{top: 0;}}"
  {
    ExampleBody();
    ExampleMedia();
  }
}
