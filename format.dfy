/**
 * String templating in `util`: `formatString` (positional `{n}` placeholders)
 * and the string half of `mergeTemplate` (`{{prop}}` placeholders).
 *
 * Both are one global regular-expression replacement. The regex scans left to
 * right; where it matches, the replacement is emitted and the scan resumes
 * after the match (a replacement is never rescanned); elsewhere one character
 * is copied.
 */
module Format {
  import opened Values
  import opened Strings

  // ---------------------------------------------------------------- formatString

  /** The length of the match of `/{(\d+)}/` at the start of `s`, or 0 when the
      pattern does not match there. */
  function PlaceholderLen(s: string): (n: nat)
    ensures n == 0 || 3 <= n <= |s|
  {
    if |s| == 0 || s[0] != '{' then 0
    else
      var d := DigitsLen(s[1..]);
      if d > 0 && 1 + d < |s| && s[1 + d] == '}' then d + 2 else 0
  }

  /** A match is `{`, then the maximal run of digits after it, then `}`. */
  lemma PlaceholderShape(s: string)
    requires PlaceholderLen(s) > 0
    ensures var n := PlaceholderLen(s);
            && s[0] == '{' && s[n - 1] == '}' && AllDigits(s[1..n - 1])
            && n - 2 == DigitsLen(s[1..])
  {
    var d := DigitsLen(s[1..]);
    assert s[1..][..d] == s[1..1 + d];
  }

  /** What replaces a matched `{digits}`: argument number `digits` when it is
      defined, otherwise the matched text itself. */
  function Replacement(digits: string, args: seq<Option<string>>): string
    requires AllDigits(digits)
  {
    var n := DecimalValue(digits);
    if n < |args| && args[n].Some? then args[n].value else "{" + digits + "}"
  }

  /** How far one step of the scan advances: past the match, or one character. */
  function Advance(s: string): (k: nat)
    requires s != []
    ensures 1 <= k <= |s|
  {
    var n := PlaceholderLen(s);
    if n == 0 then 1 else n
  }

  /** What one step of the scan emits: the replacement of the match at the front,
      or the first character. */
  function Head(s: string, args: seq<Option<string>>): string
    requires s != []
  {
    var n := PlaceholderLen(s);
    if n == 0 then [s[0]] else PlaceholderShape(s); Replacement(s[1..n - 1], args)
  }

  /** `formatString(str, a0, a1, ...)`; `args[n]` is `a_n` in its string form, or
      `None` when that argument is `undefined` or not passed. */
  function FormatString(s: string, args: seq<Option<string>>): string
    decreases |s|
  {
    if s == [] then [] else Head(s, args) + FormatString(s[Advance(s)..], args)
  }

  /** A digit run ends where the string after it starts with a non-digit. */
  lemma {:induction false} DigitsLenSplit(a: string, b: string)
    requires b == [] || !IsDigit(b[0])
    ensures DigitsLen(a + b) == DigitsLen(a)
    decreases |a|
  {
    if a == [] {
      assert a + b == b;
    } else if IsDigit(a[0]) {
      assert (a + b)[1..] == a[1..] + b;
      DigitsLenSplit(a[1..], b);
    }
  }

  /** A match at the start of `pre + rest` is a match at the start of `pre`, when
      `rest` cannot continue a `{digits}` token: one step of the scan does the same
      on both. */
  lemma StepSplit(pre: string, rest: string, args: seq<Option<string>>)
    requires pre != []
    requires rest == [] || (!IsDigit(rest[0]) && rest[0] != '}')
    ensures PlaceholderLen(pre + rest) == PlaceholderLen(pre)
    ensures Advance(pre + rest) == Advance(pre)
    ensures Head(pre + rest, args) == Head(pre, args)
  {
    var s := pre + rest;
    if pre[0] == '{' {
      assert s[1..] == pre[1..] + rest;
      DigitsLenSplit(pre[1..], rest);
    }
    var n := PlaceholderLen(pre);
    if n > 0 {
      assert s[1..n - 1] == pre[1..n - 1];
    }
  }

  /** Formatting distributes over a split before a character that can neither
      extend a digit run nor close a token (in particular before a `{`). */
  lemma {:induction false} FormatSplit(pre: string, rest: string, args: seq<Option<string>>)
    requires rest == [] || (!IsDigit(rest[0]) && rest[0] != '}')
    ensures FormatString(pre + rest, args) == FormatString(pre, args) + FormatString(rest, args)
    decreases |pre|
  {
    if pre == [] {
      assert pre + rest == rest;
    } else {
      var s := pre + rest;
      StepSplit(pre, rest, args);
      var a := Advance(pre);
      assert s[a..] == pre[a..] + rest;
      FormatSplit(pre[a..], rest, args);
      assert FormatString(s, args) == Head(pre, args) + FormatString(pre[a..] + rest, args);
      assert FormatString(pre, args) == Head(pre, args) + FormatString(pre[a..], args);
      AppendAssoc(Head(pre, args), FormatString(pre[a..], args), FormatString(rest, args));
    }
  }

  /** `{digits}` followed by anything is a match of length `|digits| + 2`. */
  lemma PlaceholderAtFront(digits: string, rest: string)
    requires |digits| > 0 && AllDigits(digits)
    ensures var s := "{" + digits + "}" + rest;
            && PlaceholderLen(s) == |digits| + 2
            && s[1..|digits| + 1] == digits
            && s[|digits| + 2..] == rest
  {
    var s := "{" + digits + "}" + rest;
    assert s[1..] == digits + ("}" + rest);
    DigitsLenSplit(digits, "}" + rest);
    assert DigitsLen(digits) == |digits|;
  }

  /** A `{digits}` token at the front is replaced by argument `digits` when it is
      defined and kept literally otherwise; the rest is formatted on its own. */
  lemma FormatPlaceholder(digits: string, rest: string, args: seq<Option<string>>)
    requires |digits| > 0 && AllDigits(digits)
    ensures var n := DecimalValue(digits);
            FormatString("{" + digits + "}" + rest, args)
            == (if n < |args| && args[n].Some? then args[n].value else "{" + digits + "}")
               + FormatString(rest, args)
  {
    var s := "{" + digits + "}" + rest;
    PlaceholderAtFront(digits, rest);
    assert Advance(s) == |digits| + 2;
    assert Head(s, args) == Replacement(digits, args);
  }

  /** Each `{n}` anywhere in the string is replaced independently of the text
      around it, and the substituted text is not rescanned. */
  lemma FormatReplacesEachPlaceholder(pre: string, digits: string, post: string, args: seq<Option<string>>)
    requires |digits| > 0 && AllDigits(digits)
    ensures var n := DecimalValue(digits);
            FormatString(pre + "{" + digits + "}" + post, args)
            == FormatString(pre, args)
               + (if n < |args| && args[n].Some? then args[n].value else "{" + digits + "}")
               + FormatString(post, args)
  {
    var tail := "{" + digits + "}" + post;
    Regroup(pre, digits, post);
    FormatSplit(pre, tail, args);
    FormatPlaceholder(digits, post, args);
  }

  lemma Regroup(pre: string, digits: string, post: string)
    ensures pre + "{" + digits + "}" + post == pre + ("{" + digits + "}" + post)
  {
  }

  /** `/{(\d+)}/` matches nowhere in `s`. */
  ghost predicate NoPlaceholder(s: string)
  {
    forall i :: 0 <= i < |s| ==> PlaceholderLen(s[i..]) == 0
  }

  /** A string without any `{digits}` token is returned unchanged. */
  lemma {:induction false} FormatWithoutPlaceholder(s: string, args: seq<Option<string>>)
    requires NoPlaceholder(s)
    ensures FormatString(s, args) == s
    decreases |s|
  {
    if s != [] {
      assert PlaceholderLen(s[0..]) == 0 && s[0..] == s;
      assert forall i :: 0 <= i < |s| - 1 ==> s[1..][i..] == s[i + 1..];
      FormatWithoutPlaceholder(s[1..], args);
    }
  }

  /** With no defined arguments every token is kept literally: the string comes
      back unchanged. */
  lemma {:induction false} FormatWithoutArguments(s: string, args: seq<Option<string>>)
    requires forall k :: 0 <= k < |args| ==> args[k].None?
    ensures FormatString(s, args) == s
    decreases |s|
  {
    if s != [] {
      FormatWithoutArguments(s[Advance(s)..], args);
      HeadWithoutArguments(s, args);
      FormatStepCopies(s, args);
    }
  }

  /** When one step emits exactly the text it advances over and the rest comes
      back unchanged, so does the whole string. */
  lemma FormatStepCopies(s: string, args: seq<Option<string>>)
    requires s != []
    requires Head(s, args) == s[..Advance(s)]
    requires FormatString(s[Advance(s)..], args) == s[Advance(s)..]
    ensures FormatString(s, args) == s
  {
    var a := Advance(s);
    SplitJoin(s, a);
  }

  /** Without arguments one step emits exactly the text it advances over. */
  lemma HeadWithoutArguments(s: string, args: seq<Option<string>>)
    requires s != []
    requires forall k :: 0 <= k < |args| ==> args[k].None?
    ensures Head(s, args) == s[..Advance(s)]
  {
    var n := PlaceholderLen(s);
    if n > 0 {
      PlaceholderShape(s);
      var digits := s[1..n - 1];
      var d := DecimalValue(digits);
      assert !(d < |args| && args[d].Some?);
      assert Replacement(digits, args) == "{" + digits + "}";
      assert Head(s, args) == "{" + digits + "}";
      assert s[..n] == [s[0]] + digits + [s[n - 1]];
    }
  }

  // --------------------------------------------------------------- mergeTemplate

  /** What `.` in a JavaScript regular expression does not match. */
  predicate IsLineTerminator(c: char)
  {
    c == '\n' || c == '\r' || c == '\U{2028}' || c == '\U{2029}'
  }

  /** The lazy `(.*?)}}` from index `i`: the index of the first `}}` reached without
      crossing a line terminator, or -1. */
  function CloseFrom(s: string, i: nat): (r: int)
    ensures r == -1 || (i <= r && r + 1 < |s| && s[r] == '}' && s[r + 1] == '}')
    ensures r != -1 ==> forall k :: i <= k < r ==> !IsLineTerminator(s[k])
    ensures r != -1 ==> forall k :: i <= k < r ==> !(s[k] == '}' && s[k + 1] == '}')
    decreases |s| - i
  {
    if i + 1 < |s| && s[i] == '}' && s[i + 1] == '}' then i
    else if i < |s| && !IsLineTerminator(s[i]) then CloseFrom(s, i + 1)
    else -1
  }

  /** The length of the match of `/{{(.*?)}}/` at the start of `s`, or 0. */
  function TemplateTokenLen(s: string): (n: nat)
    ensures n == 0 || 4 <= n <= |s|
  {
    if |s| >= 2 && s[0] == '{' && s[1] == '{' then
      var c := CloseFrom(s, 2);
      if c == -1 then 0 else c + 2
    else 0
  }

  /** The string part of `mergeTemplate(template, obj)`: each `{{prop}}` becomes
      `obj[prop]` when that property is defined and stays as it is otherwise. */
  function MergeTemplateText(s: string, obj: map<string, string>): string
    decreases |s|
  {
    if s == [] then []
    else
      var n := TemplateTokenLen(s);
      if n == 0 then [s[0]] + MergeTemplateText(s[1..], obj)
      else
        var prop := s[2..n - 2];
        (if prop in obj then obj[prop] else s[..n]) + MergeTemplateText(s[n..], obj)
  }

  /** The lazy scan fails only when a line terminator comes before every `}}`
      after `i`. */
  lemma {:induction false} CloseFromFails(s: string, i: nat, j: nat)
    requires CloseFrom(s, i) == -1
    requires i <= j && j + 1 < |s| && s[j] == '}' && s[j + 1] == '}'
    ensures exists k :: i <= k < j && IsLineTerminator(s[k])
    decreases j - i
  {
    assert !(s[i] == '}' && s[i + 1] == '}');
    assert i < j;
    if IsLineTerminator(s[i]) {
    } else {
      CloseFromFails(s, i + 1, j);
    }
  }

  /** The lazy scan stops at the first `}}` when the text before it holds no
      line terminator and no earlier `}}` starts in it. */
  lemma {:induction false} CloseFromFindsFirst(s: string, i: nat, j: nat)
    requires i <= j && j + 1 < |s| && s[j] == '}' && s[j + 1] == '}'
    requires forall k :: i <= k < j ==> !IsLineTerminator(s[k]) && !(s[k] == '}' && s[k + 1] == '}')
    ensures CloseFrom(s, i) == j
    decreases j - i
  {
    if i < j {
      CloseFromFindsFirst(s, i + 1, j);
    }
  }

  /** A `{{prop}}` token at the front becomes `obj[prop]` when defined and stays
      literal otherwise. The lazy match takes exactly `prop` when `prop` holds no
      line terminator, no `}}`, and does not end in `}` (so `{{a}b}}` has the
      property `a}b`). */
  lemma TemplateFillsProperty(prop: string, rest: string, obj: map<string, string>)
    requires forall k :: 0 <= k < |prop| ==> !IsLineTerminator(prop[k])
    requires forall k :: 0 <= k < |prop| - 1 ==> !(prop[k] == '}' && prop[k + 1] == '}')
    requires prop == [] || prop[|prop| - 1] != '}'
    ensures MergeTemplateText("{{" + prop + "}}" + rest, obj)
            == (if prop in obj then obj[prop] else "{{" + prop + "}}") + MergeTemplateText(rest, obj)
  {
    var s := "{{" + prop + "}}" + rest;
    forall k | 2 <= k < |prop| + 2
      ensures !IsLineTerminator(s[k]) && !(s[k] == '}' && s[k + 1] == '}')
    {
      assert s[k] == prop[k - 2];
      if k < |prop| + 1 {
        assert s[k + 1] == prop[k - 1];
      }
    }
    CloseFromFindsFirst(s, 2, |prop| + 2);
    assert TemplateTokenLen(s) == |prop| + 4;
    assert s[2..|prop| + 2] == prop;
    assert s[..|prop| + 4] == "{{" + prop + "}}";
    assert s[|prop| + 4..] == rest;
  }

  /** A template without `{{` comes back unchanged. */
  lemma {:induction false} TemplateWithoutTokens(s: string, obj: map<string, string>)
    requires forall k: nat :: !OccursAt(s, "{{", k)
    ensures MergeTemplateText(s, obj) == s
    decreases |s|
  {
    if s != [] {
      if |s| >= 2 {
        assert !OccursAt(s, "{{", 0);
        assert s[0..2] == [s[0], s[1]];
      }
      forall k: nat ensures !OccursAt(s[1..], "{{", k) {
        assert !OccursAt(s, "{{", k + 1);
        if k + 2 <= |s| - 1 {
          assert s[1..][k..k + 2] == s[k + 1..k + 3];
        }
      }
      TemplateWithoutTokens(s[1..], obj);
    }
  }

  /** With no properties defined every token stays literal. */
  lemma {:induction false} TemplateWithEmptyObject(s: string)
    ensures MergeTemplateText(s, map[]) == s
    decreases |s|
  {
    if s != [] {
      var n := TemplateTokenLen(s);
      if n == 0 {
        TemplateWithEmptyObject(s[1..]);
      } else {
        TemplateWithEmptyObject(s[n..]);
        assert s == s[..n] + s[n..];
      }
    }
  }
}
