/** Input validation helpers (`src/utils/validation.ts`): the string
    sanitiser, the rate-limit and audio-file checks, and the explicit bounds
    of the form schemas. Lengths count characters. */
module Validation {
  import opened Wrappers
  import opened Types
  import opened Text
  import Transcribe

  // ---------------------------------------------------------------------
  // sanitizeString

  /** The characters of `s` that are not whitespace, in order. */
  function NonSpace(s: string): string {
    if |s| == 0 then []
    else (if IsSpace(s[0]) then [] else [s[0]]) + NonSpace(s[1..])
  }

  /** `s` with every `<` and `>` removed. */
  function RemoveAngles(s: string): (r: string)
    ensures |r| <= |s|
    ensures Lacks(r, '<') && Lacks(r, '>')
    ensures forall i :: 0 <= i < |r| ==> r[i] in s
    ensures Lacks(s, '<') && Lacks(s, '>') ==> r == s
  {
    if |s| == 0 then []
    else
      var rest := RemoveAngles(s[1..]);
      assert forall i :: 0 <= i < |rest| ==> rest[i] in s by {
        forall i | 0 <= i < |rest| ensures rest[i] in s {
          assert rest[i] in s[1..];
        }
      }
      if s[0] == '<' || s[0] == '>' then rest
      else
        assert Lacks(s, '<') && Lacks(s, '>') ==> rest == s[1..];
        [s[0]] + rest
  }

  lemma {:induction false} NonSpaceOfSpaces(s: string, t: string)
    requires IsBlank(s)
    ensures NonSpace(s + t) == NonSpace(t)
  {
    if |s| > 0 {
      assert (s + t)[0] == s[0] && IsSpace(s[0]);
      assert (s + t)[1..] == s[1..] + t;
      assert NonSpace(s + t) == NonSpace((s + t)[1..]);
      NonSpaceOfSpaces(s[1..], t);
    } else {
      assert s + t == t;
    }
  }

  /** Replaces every maximal run of whitespace by one space (JavaScript
      `replace(/\s+/g, ' ')`). */
  function CollapseSpace(s: string): (r: string)
    ensures |r| <= |s|
    decreases |s|
  {
    if |s| == 0 then []
    else if IsSpace(s[0]) then
      TrimStartShortens(s);
      [' '] + CollapseSpace(TrimStart(s))
    else [s[0]] + CollapseSpace(s[1..])
  }

  /** Collapsing keeps the non-whitespace characters, in order. */
  lemma {:induction false} CollapseKeepsNonSpace(s: string)
    ensures NonSpace(CollapseSpace(s)) == NonSpace(s)
    decreases |s|
  {
    if |s| > 0 {
      if IsSpace(s[0]) {
        var t := TrimStart(s);
        TrimStartShortens(s);
        CollapseKeepsNonSpace(t);
        NonSpaceOfSpaces(LeadingRun(s), t);
        NonSpaceOfSpaces([' '], CollapseSpace(t));
      } else {
        CollapseKeepsNonSpace(s[1..]);
        var r := CollapseSpace(s);
        assert r[0] == s[0] && r[1..] == CollapseSpace(s[1..]);
      }
    }
  }

  /** Every character of the collapsed text is a space or one of the input's. */
  lemma {:induction false} CollapseCharsFromInput(s: string)
    ensures forall i :: 0 <= i < |CollapseSpace(s)| ==> CollapseSpace(s)[i] == ' ' || CollapseSpace(s)[i] in s
    decreases |s|
  {
    if |s| > 0 {
      CollapseFirst(s);
      CollapseTail(s);
      var u := if IsSpace(s[0]) then TrimStart(s) else s[1..];
      CollapseCharsFromInput(u);
      CollapseCharsStep(s, u, CollapseSpace(s), CollapseSpace(u));
    }
  }

  lemma CollapseCharsStep(s: string, u: string, r: string, ru: string)
    requires |s| > 0 && |u| < |s| && u == s[|s| - |u|..]
    requires |r| > 0 && r[1..] == ru
    requires r[0] == ' ' || r[0] == s[0]
    requires forall i :: 0 <= i < |ru| ==> ru[i] == ' ' || ru[i] in u
    ensures forall i :: 0 <= i < |r| ==> r[i] == ' ' || r[i] in s
  {
    assert s[0] in s;
    forall i | 1 <= i < |r| ensures r[i] == ' ' || r[i] in s {
      assert r[i] == ru[i - 1];
      if r[i] != ' ' {
        InSuffix(r[i], s, u);
      }
    }
  }

  lemma InSuffix(c: char, s: string, u: string)
    requires |u| <= |s| && u == s[|s| - |u|..] && c in u
    ensures c in s
  {
    var k :| 0 <= k < |u| && u[k] == c;
    assert s[|s| - |u| + k] == c;
  }

  /** The collapsed text starts with a space exactly when the input starts
      with whitespace, and otherwise with the input's first character. */
  lemma CollapseFirst(s: string)
    requires |s| > 0
    ensures |CollapseSpace(s)| > 0
    ensures CollapseSpace(s)[0] == if IsSpace(s[0]) then ' ' else s[0]
  {
  }

  /** The rest of the collapsed text after its first character. */
  lemma CollapseTail(s: string)
    requires |s| > 0
    ensures IsSpace(s[0]) ==> |TrimStart(s)| < |s| && CollapseSpace(s)[1..] == CollapseSpace(TrimStart(s))
    ensures !IsSpace(s[0]) ==> CollapseSpace(s)[1..] == CollapseSpace(s[1..])
  {
    if IsSpace(s[0]) {
      TrimStartShortens(s);
    }
  }

  /** The only whitespace left after collapsing is the plain space. */
  lemma {:induction false} CollapseOnlyPlainSpace(s: string)
    ensures forall i :: 0 <= i < |CollapseSpace(s)| && IsSpace(CollapseSpace(s)[i]) ==> CollapseSpace(s)[i] == ' '
    decreases |s|
  {
    if |s| > 0 {
      CollapseFirst(s);
      CollapseTail(s);
      var u := if IsSpace(s[0]) then TrimStart(s) else s[1..];
      CollapseOnlyPlainSpace(u);
      var r := CollapseSpace(s);
      forall i | 0 <= i < |r| && IsSpace(r[i]) ensures r[i] == ' ' {
        if i > 0 {
          assert r[i] == CollapseSpace(u)[i - 1];
        }
      }
    }
  }

  /** Collapsing leaves no two whitespace characters side by side. */
  lemma {:induction false} CollapseNoAdjacentSpace(s: string)
    ensures forall i :: 0 <= i < |CollapseSpace(s)| - 1 ==>
              !IsSpace(CollapseSpace(s)[i]) || !IsSpace(CollapseSpace(s)[i + 1])
    decreases |s|
  {
    if |s| > 0 {
      CollapseFirst(s);
      CollapseTail(s);
      var u := if IsSpace(s[0]) then TrimStart(s) else s[1..];
      CollapseNoAdjacentSpace(u);
      var r := CollapseSpace(s);
      var ru := CollapseSpace(u);
      if |u| > 0 {
        CollapseFirst(u);
      }
      forall i | 0 <= i < |r| - 1 ensures !IsSpace(r[i]) || !IsSpace(r[i + 1]) {
        assert r[i + 1] == ru[i];
        if i > 0 {
          assert r[i] == ru[i - 1];
        }
      }
    }
  }

  /** `n` separators of one plain space each. */
  function SingleSpaces(n: nat): (seps: seq<string>)
    ensures |seps| == n && forall k :: 0 <= k < n ==> seps[k] == " "
  {
    seq(n, _ => " ")
  }

  /** Collapsing is splitting at whitespace runs (the `\s+` of the
      transcription function's split) and joining the pieces again with one
      space each: every run between two words becomes exactly one space,
      and a leading or trailing run becomes one leading or trailing space. */
  lemma {:induction false} CollapseIsSingleSpaced(s: string)
    ensures CollapseSpace(s) ==
      Transcribe.Join(Transcribe.SplitWords(s), SingleSpaces(|Transcribe.SplitWords(s)| - 1))
    decreases |s|
  {
    if |s| > 0 {
      CollapseFirst(s);
      CollapseTail(s);
      if IsSpace(s[0]) {
        var t := TrimStart(s);
        CollapseIsSingleSpaced(t);
        Transcribe.SplitWordsSpace(s);
        var ws := Transcribe.SplitWords(t);
        Transcribe.JoinCons([], ws, " ", SingleSpaces(|ws| - 1));
        assert SingleSpaces(|ws|) == [" "] + SingleSpaces(|ws| - 1);
        assert CollapseSpace(s) == [' '] + CollapseSpace(t);
      } else {
        CollapseIsSingleSpaced(s[1..]);
        Transcribe.SplitWordsWord(s);
        var ws := Transcribe.SplitWords(s[1..]);
        Transcribe.JoinPrepend(s[0], ws, SingleSpaces(|ws| - 1));
        assert CollapseSpace(s) == [s[0]] + CollapseSpace(s[1..]);
      }
    }
  }

  /** The collapsed text ends in whitespace exactly when the input does. */
  lemma {:induction false} CollapseLast(s: string)
    requires |s| > 0
    ensures |CollapseSpace(s)| > 0
    ensures IsSpace(CollapseSpace(s)[|CollapseSpace(s)| - 1]) <==> IsSpace(s[|s| - 1])
    decreases |s|
  {
    CollapseFirst(s);
    CollapseTail(s);
    var r := CollapseSpace(s);
    var u := if IsSpace(s[0]) then TrimStart(s) else s[1..];
    if |u| > 0 {
      CollapseLast(u);
      SameLast(r, CollapseSpace(u));
      SameLast(s, u);
    } else if IsSpace(s[0]) {
      assert IsSpace(s[|s| - 1 - |u|]);
    }
  }

  /** A text and its tail after dropping a prefix end alike. */
  lemma SameLast(a: string, b: string)
    requires 0 < |b| <= |a| && b == a[|a| - |b|..]
    ensures a[|a| - 1] == b[|b| - 1]
  {
  }

  /** Removing angle brackets works piece by piece: on a concatenation it
      is the concatenation of the two results, so the kept characters stay
      in their order. */
  lemma {:induction false} RemoveAnglesAppend(a: string, b: string)
    ensures RemoveAngles(a + b) == RemoveAngles(a) + RemoveAngles(b)
    decreases |a|
  {
    if |a| == 0 {
      assert a + b == b;
    } else {
      RemoveAnglesAppend(a[1..], b);
      RemoveAnglesAppendStep(a, b);
    }
  }

  /** The step of `RemoveAnglesAppend` for a non-empty first text. */
  lemma RemoveAnglesAppendStep(a: string, b: string)
    requires |a| > 0
    requires RemoveAngles(a[1..] + b) == RemoveAngles(a[1..]) + RemoveAngles(b)
    ensures RemoveAngles(a + b) == RemoveAngles(a) + RemoveAngles(b)
  {
    var k := if a[0] == '<' || a[0] == '>' then [] else [a[0]];
    ConsAppend(a, b);
    RemoveAnglesCons(a[0], a[1..] + b);
    RemoveAnglesCons(a[0], a[1..]);
    ConcatAssoc(k, RemoveAngles(a[1..]), RemoveAngles(b));
  }

  /** A non-empty text is its first character and its tail. */
  lemma ConsAppend(a: string, b: string)
    requires |a| > 0
    ensures a == [a[0]] + a[1..] && a + b == [a[0]] + (a[1..] + b)
  {
  }

  /** Removing angle brackets keeps every other character as often as it
      occurs, and drops every `<` and `>`. */
  lemma {:induction false} RemoveAnglesKeepsOthers(s: string)
    ensures multiset(RemoveAngles(s)) == multiset(s)['<' := 0]['>' := 0]
    decreases |s|
  {
    if |s| > 0 {
      RemoveAnglesKeepsOthers(s[1..]);
      RemoveAnglesCons(s[0], s[1..]);
      assert s == [s[0]] + s[1..];
    }
  }

  /** The non-whitespace characters of a concatenation. */
  lemma {:induction false} NonSpaceAppend(a: string, b: string)
    ensures NonSpace(a + b) == NonSpace(a) + NonSpace(b)
    decreases |a|
  {
    if |a| == 0 {
      assert a + b == b;
    } else {
      NonSpaceAppend(a[1..], b);
      ConsAppend(a, b);
      NonSpaceCons(a[0], a[1..] + b);
      NonSpaceCons(a[0], a[1..]);
      ConcatAssoc(if IsSpace(a[0]) then [] else [a[0]], NonSpace(a[1..]), NonSpace(b));
    }
  }

  lemma NonSpaceCons(c: char, t: string)
    ensures NonSpace([c] + t) == (if IsSpace(c) then [] else [c]) + NonSpace(t)
  {
    assert ([c] + t)[1..] == t;
  }

  /** Blank text has no non-whitespace characters. */
  lemma {:induction false} NonSpaceBlank(s: string)
    requires IsBlank(s)
    ensures NonSpace(s) == []
    decreases |s|
  {
    if |s| > 0 {
      BlankTail(s);
      NonSpaceBlank(s[1..]);
    }
  }

  /** Trimming keeps every non-whitespace character. */
  lemma TrimKeepsNonSpace(s: string)
    ensures NonSpace(Trim(s)) == NonSpace(s)
  {
    var pre, post := Text.TrimSplit(s);
    NonSpaceBetweenBlanks(pre, Trim(s), post);
  }

  /** Whitespace around a text adds no non-whitespace character. */
  lemma NonSpaceBetweenBlanks(pre: string, r: string, post: string)
    requires IsBlank(pre) && IsBlank(post)
    ensures NonSpace(pre + r + post) == NonSpace(r)
  {
    NonSpaceAppend(pre + r, post);
    NonSpaceAppend(pre, r);
    NonSpaceBlank(pre);
    NonSpaceBlank(post);
  }

  /** Angle brackets are not whitespace, so removing them and dropping
      whitespace can be done in either order. */
  lemma {:induction false} NonSpaceRemoveAngles(s: string)
    ensures NonSpace(RemoveAngles(s)) == RemoveAngles(NonSpace(s))
    decreases |s|
  {
    if |s| > 0 {
      NonSpaceRemoveAngles(s[1..]);
      RemoveAnglesCons(s[0], s[1..]);
      assert s == [s[0]] + s[1..];
      var kept := if s[0] == '<' || s[0] == '>' then [] else [s[0]];
      NonSpaceAppend(kept, RemoveAngles(s[1..]));
      var head := if IsSpace(s[0]) then [] else [s[0]];
      RemoveAnglesAppend(head, NonSpace(s[1..]));
      assert NonSpace(kept) == RemoveAngles(head);
    }
  }

  /** `sanitizeString`: trim, collapse whitespace runs to one space, then
      drop `<` and `>`. Its non-whitespace characters are exactly those of
      the input other than `<` and `>`, in their order. */
  function SanitizeString(input: string): (r: string)
    ensures |r| <= |input|
    ensures NonSpace(r) == RemoveAngles(NonSpace(input))
  {
    var t := Trim(input);
    TrimKeepsNonSpace(input);
    CollapseKeepsNonSpace(t);
    NonSpaceRemoveAngles(CollapseSpace(t));
    RemoveAngles(CollapseSpace(t))
  }

  /** The sanitised text holds no `<`, `>` or whitespace other than a plain
      space. */
  lemma SanitizeStringCharset(input: string)
    ensures var r := SanitizeString(input);
      && Lacks(r, '<') && Lacks(r, '>')
      && (forall i :: 0 <= i < |r| && IsSpace(r[i]) ==> r[i] == ' ')
  {
    var c := CollapseSpace(Trim(input));
    var r := RemoveAngles(c);
    CollapseOnlyPlainSpace(Trim(input));
    forall i | 0 <= i < |r| && IsSpace(r[i]) ensures r[i] == ' ' {
      assert r[i] in c;
    }
  }

  /** Collapsing a piece of a text without `<` and `>` adds none. */
  lemma CollapseLacksAngles(input: string, t: string)
    requires IsInfix(t, input) && Lacks(input, '<') && Lacks(input, '>')
    ensures Lacks(CollapseSpace(t), '<') && Lacks(CollapseSpace(t), '>')
  {
    var c := CollapseSpace(t);
    CollapseCharsFromInput(t);
    var a :| 0 <= a <= |input| - |t| && OccursAt(t, input, a);
    assert forall j :: 0 <= j < |t| ==> t[j] == input[a + j];
    forall i | 0 <= i < |c| ensures c[i] != '<' && c[i] != '>' {
      if c[i] != ' ' {
        var j :| 0 <= j < |t| && t[j] == c[i];
      }
    }
  }

  /** Without `<` and `>` in the input, sanitising is trimming and
      collapsing. */
  lemma SanitizeWithoutAngles(input: string)
    requires Lacks(input, '<') && Lacks(input, '>')
    ensures SanitizeString(input) == CollapseSpace(Trim(input))
  {
    CollapseLacksAngles(input, Trim(input));
  }

  /** When the input has no `<` or `>`, the sanitised text has no
      whitespace at either end and no two spaces in a row. With them, a
      removed `<` or `>` can leave two spaces side by side. */
  lemma SanitizeStringTidy(input: string)
    requires Lacks(input, '<') && Lacks(input, '>')
    ensures var r := SanitizeString(input);
      && (|r| > 0 ==> !IsSpace(r[0]) && !IsSpace(r[|r| - 1]))
      && (forall i :: 0 <= i < |r| - 1 ==> !(r[i] == ' ' && r[i + 1] == ' '))
  {
    SanitizeWithoutAngles(input);
    CollapseTrimmed(Trim(input));
  }

  /** Collapsing a text without whitespace at its ends gives a text without
      whitespace at its ends and without two spaces in a row. */
  lemma CollapseTrimmed(t: string)
    requires |t| > 0 ==> !IsSpace(t[0]) && !IsSpace(t[|t| - 1])
    ensures var c := CollapseSpace(t);
      && (|c| > 0 ==> !IsSpace(c[0]) && !IsSpace(c[|c| - 1]))
      && (forall i :: 0 <= i < |c| - 1 ==> !(c[i] == ' ' && c[i + 1] == ' '))
  {
    var c := CollapseSpace(t);
    CollapseNoAdjacentSpace(t);
    forall i | 0 <= i < |c| - 1 ensures !(c[i] == ' ' && c[i + 1] == ' ') {
      assert !IsSpace(c[i]) || !IsSpace(c[i + 1]);
    }
    if |t| > 0 {
      CollapseFirst(t);
      CollapseLast(t);
    }
  }

  /** A `<` between two spaces is removed only after the whitespace was
      collapsed, so two spaces remain: "a < b" becomes "a  b" ... */
  lemma SanitizeKeepsSpacesAroundAngle(x: char, y: char)
    requires !IsSpace(x) && !IsSpace(y) && x != '<' && x != '>' && y != '<' && y != '>'
    ensures SanitizeString([x, ' ', '<', ' ', y]) == [x, ' ', ' ', y]
  {
    TrimKeepsEnds([x, ' ', '<', ' ', y]);
    CollapseAngleExample(x, y);
    RemoveAnglesExample(x, y);
  }

  /** ... and sanitising that output again collapses them: "a  b" becomes
      "a b", so the function is not idempotent. */
  lemma SanitizeCollapsesDoubleSpace(x: char, y: char)
    requires !IsSpace(x) && !IsSpace(y) && x != '<' && x != '>' && y != '<' && y != '>'
    ensures SanitizeString([x, ' ', ' ', y]) == [x, ' ', y]
  {
    TrimKeepsEnds([x, ' ', ' ', y]);
    CollapseDoubleExample(x, y);
    RemoveAnglesCons(x, [' ', y]);
    RemoveAnglesCons(' ', [y]);
    RemoveAnglesCons(y, []);
  }

  lemma TrimKeepsEnds(s: string)
    requires |s| > 0 && !IsSpace(s[0]) && !IsSpace(s[|s| - 1])
    ensures Trim(s) == s
  {
  }

  lemma CollapseNonSpaceCons(c: char, t: string)
    requires !IsSpace(c)
    ensures CollapseSpace([c] + t) == [c] + CollapseSpace(t)
  {
    assert ([c] + t)[1..] == t;
  }

  lemma CollapseSpaceCons(t: string)
    requires t == [] || !IsSpace(t[0])
    ensures CollapseSpace([' '] + t) == [' '] + CollapseSpace(t)
  {
    assert ([' '] + t)[1..] == t;
    assert TrimStart(t) == t;
  }

  lemma CollapseTwoSpacesCons(t: string)
    requires t == [] || !IsSpace(t[0])
    ensures CollapseSpace([' ', ' '] + t) == [' '] + CollapseSpace(t)
  {
    assert ([' ', ' '] + t)[1..] == [' '] + t;
    assert ([' '] + t)[1..] == t;
    assert TrimStart(t) == t;
  }

  lemma CollapseAngleExample(x: char, y: char)
    requires !IsSpace(x) && !IsSpace(y)
    ensures CollapseSpace([x, ' ', '<', ' ', y]) == [x, ' ', '<', ' ', y]
  {
    CollapseNonSpaceCons(y, []);
    assert [y] + [] == [y];
    CollapseSpaceCons([y]);
    assert [' '] + [y] == [' ', y];
    CollapseNonSpaceCons('<', [' ', y]);
    assert ['<'] + [' ', y] == ['<', ' ', y];
    CollapseSpaceCons(['<', ' ', y]);
    assert [' '] + ['<', ' ', y] == [' ', '<', ' ', y];
    CollapseNonSpaceCons(x, [' ', '<', ' ', y]);
    assert [x] + [' ', '<', ' ', y] == [x, ' ', '<', ' ', y];
  }

  lemma CollapseDoubleExample(x: char, y: char)
    requires !IsSpace(x) && !IsSpace(y)
    ensures CollapseSpace([x, ' ', ' ', y]) == [x, ' ', y]
  {
    CollapseNonSpaceCons(y, []);
    assert [y] + [] == [y];
    CollapseTwoSpacesCons([y]);
    assert [' ', ' '] + [y] == [' ', ' ', y];
    CollapseNonSpaceCons(x, [' ', ' ', y]);
    assert [x] + [' ', ' ', y] == [x, ' ', ' ', y];
  }

  lemma RemoveAnglesCons(c: char, t: string)
    ensures RemoveAngles([c] + t) == (if c == '<' || c == '>' then [] else [c]) + RemoveAngles(t)
  {
    assert ([c] + t)[1..] == t;
  }

  lemma RemoveAnglesTail(y: char)
    requires y != '<' && y != '>'
    ensures RemoveAngles([' ', y]) == [' ', y]
  {
    RemoveAnglesCons(y, []);
    assert [y] + [] == [y];
    RemoveAnglesCons(' ', [y]);
    assert [' '] + [y] == [' ', y];
  }

  lemma RemoveAnglesDropsAngle(y: char)
    requires y != '<' && y != '>'
    ensures RemoveAngles(['<', ' ', y]) == [' ', y]
  {
    RemoveAnglesTail(y);
    RemoveAnglesCons('<', [' ', y]);
    assert ['<'] + [' ', y] == ['<', ' ', y];
  }

  lemma RemoveAnglesAfterAngle(y: char)
    requires y != '<' && y != '>'
    ensures RemoveAngles([' ', '<', ' ', y]) == [' ', ' ', y]
  {
    RemoveAnglesDropsAngle(y);
    RemoveAnglesCons(' ', ['<', ' ', y]);
    assert [' '] + ['<', ' ', y] == [' ', '<', ' ', y];
  }

  lemma RemoveAnglesExample(x: char, y: char)
    requires x != '<' && x != '>' && y != '<' && y != '>'
    ensures RemoveAngles([x, ' ', '<', ' ', y]) == [x, ' ', ' ', y]
  {
    RemoveAnglesAfterAngle(y);
    RemoveAnglesCons(x, [' ', '<', ' ', y]);
    assert [x] + [' ', '<', ' ', y] == [x, ' ', '<', ' ', y];
  }



  // ---------------------------------------------------------------------
  // validateRateLimit

  datatype RateLimit = RateLimit(allowed: bool, remainingTime: int)

  const DefaultMaxAttempts := 5
  const DefaultWindowMs := 60000

  /** `validateRateLimit` with the clock reading `now` as a parameter: an
      attempt is allowed once a full window has passed since the last one;
      otherwise the time left in the window is reported. */
  function ValidateRateLimit(lastAttempt: int, maxAttempts: int, windowMs: int, now: int): (r: RateLimit)
    ensures r.allowed <==> now - lastAttempt >= windowMs
    ensures r.allowed ==> r.remainingTime == 0
    ensures !r.allowed ==> r.remainingTime > 0 && now - lastAttempt + r.remainingTime == windowMs
  {
    var elapsed := now - lastAttempt;
    if elapsed < windowMs then RateLimit(false, windowMs - elapsed) else RateLimit(true, 0)
  }

  /** With the default window an attempt is allowed a full minute after the
      last one, and one second after it 59 seconds remain. */
  lemma RateLimitDefaults(lastAttempt: int, now: int)
    ensures ValidateRateLimit(lastAttempt, DefaultMaxAttempts, DefaultWindowMs, now).allowed <==>
              now >= lastAttempt + 60 * 1000
    ensures ValidateRateLimit(lastAttempt, DefaultMaxAttempts, DefaultWindowMs, lastAttempt + 1000)
              == RateLimit(false, 59 * 1000)
  {
  }

  /** The attempt limit is accepted but never consulted. */
  lemma MaxAttemptsIgnored(lastAttempt: int, m1: int, m2: int, windowMs: int, now: int)
    ensures ValidateRateLimit(lastAttempt, m1, windowMs, now) == ValidateRateLimit(lastAttempt, m2, windowMs, now)
  {
  }

  // ---------------------------------------------------------------------
  // validateAudioFile

  const MaxAudioBytes := 50 * 1024 * 1024
  const AllowedAudioTypes := ["audio/mpeg", "audio/mp4", "audio/wav", "audio/ogg", "audio/webm"]

  datatype AudioError = AudioTooLarge | AudioTypeNotAllowed

  /** `validateAudioFile`: valid exactly when the file is at most 50 MiB and
      of one of the five audio types; an oversized file reports the size
      error whatever its type. */
  function ValidateAudioFile(size: nat, mimeType: string): (r: Option<AudioError>)
    ensures r == None <==> size <= MaxAudioBytes && mimeType in AllowedAudioTypes
    ensures size > MaxAudioBytes ==> r == Some(AudioTooLarge)
    ensures size <= MaxAudioBytes && mimeType !in AllowedAudioTypes ==> r == Some(AudioTypeNotAllowed)
  {
    if size > MaxAudioBytes then Some(AudioTooLarge)
    else if mimeType !in AllowedAudioTypes then Some(AudioTypeNotAllowed)
    else None
  }

  // ---------------------------------------------------------------------
  // Schemas

  /** The text of `s` before its first line terminator: the part a
      regular-expression `.*` starting at index 0 can cross. */
  function FirstLine(s: string): (r: string)
    ensures |r| <= |s| && r == s[..|r|]
    ensures forall i :: 0 <= i < |r| ==> !IsLineTerminator(s[i])
    ensures |r| < |s| ==> IsLineTerminator(s[|r|])
  {
    if |s| == 0 || IsLineTerminator(s[0]) then [] else [s[0]] + FirstLine(s[1..])
  }

  predicate HasLower(s: string) { exists i :: 0 <= i < |s| && IsAsciiLower(s[i]) }
  predicate HasUpper(s: string) { exists i :: 0 <= i < |s| && IsAsciiUpper(s[i]) }
  predicate HasDigit(s: string) { exists i :: 0 <= i < |s| && IsDigit(s[i]) }

  /** The problems `passwordSchema` reports, in check order. */
  datatype PasswordIssue = PasswordTooShort | PasswordTooLong | PasswordMissingClass

  /** The position of each check in the schema. */
  function IssueRank(i: PasswordIssue): nat {
    match i
    case PasswordTooShort => 0
    case PasswordTooLong => 1
    case PasswordMissingClass => 2
  }

  /** `passwordSchema`: every failing check is reported, in order. The
      pattern `^(?=.*[a-z])(?=.*[A-Z])(?=.*\d)` looks ahead from the start
      with `.`, which stops at a line terminator, so the three character
      classes must occur before the first line break. */
  function PasswordIssues(p: string): (issues: seq<PasswordIssue>)
    ensures issues == [] <==>
      8 <= |p| <= 128 && HasLower(FirstLine(p)) && HasUpper(FirstLine(p)) && HasDigit(FirstLine(p))
    ensures PasswordTooShort in issues <==> |p| < 8
    ensures PasswordTooLong in issues <==> |p| > 128
    ensures PasswordMissingClass in issues <==>
      !(HasLower(FirstLine(p)) && HasUpper(FirstLine(p)) && HasDigit(FirstLine(p)))
    ensures forall i, j :: 0 <= i < j < |issues| ==> IssueRank(issues[i]) < IssueRank(issues[j])
    ensures |issues| <= 2
  {
    var line := FirstLine(p);
    (if |p| < 8 then [PasswordTooShort] else [])
    + (if |p| > 128 then [PasswordTooLong] else [])
    + (if HasLower(line) && HasUpper(line) && HasDigit(line) then [] else [PasswordMissingClass])
  }

  /** `FirstLine` is the text up to its first line terminator. */
  lemma FirstLineUpTo(s: string, k: nat)
    requires k <= |s|
    requires forall i :: 0 <= i < k ==> !IsLineTerminator(s[i])
    requires k < |s| ==> IsLineTerminator(s[k])
    ensures FirstLine(s) == s[..k]
  {
  }

  /** A password of allowed length without line breaks passes exactly when
      it has a lower-case letter, an upper-case letter and a digit ... */
  lemma PasswordSingleLine(p: string)
    requires 8 <= |p| <= 128
    requires forall i :: 0 <= i < |p| ==> !IsLineTerminator(p[i])
    ensures PasswordIssues(p) == [] <==> HasLower(p) && HasUpper(p) && HasDigit(p)
    ensures PasswordIssues(p) != [] ==> PasswordIssues(p) == [PasswordMissingClass]
  {
    FirstLineUpTo(p, |p|);
    assert p[..|p|] == p;
  }

  /** ... so "Abcdefg1" passes ... */
  lemma PasswordAccepted(p: string)
    requires p == "Abcdefg1"
    ensures PasswordIssues(p) == []
  {
    PasswordSingleLine(p);
    assert IsAsciiLower(p[1]) && IsAsciiUpper(p[0]) && IsDigit(p[7]);
  }

  /** ... "abcdefgh", without an upper-case letter, does not ... */
  lemma PasswordWithoutUpperRejected(p: string)
    requires p == "abcdefgh"
    ensures PasswordIssues(p) == [PasswordMissingClass]
  {
    PasswordSingleLine(p);
    assert !HasUpper(p);
  }

  /** ... and the digit of "Abcdefg\n1" comes after a line break, so it
      does not count. */
  lemma PasswordDigitAfterLineBreakRejected(p: string)
    requires p == "Abcdefg\n1"
    ensures PasswordIssues(p) == [PasswordMissingClass]
  {
    FirstLineUpTo(p, 7);
    assert p[..7] == "Abcdefg";
    assert !HasDigit(p[..7]);
  }

  /** The explicit bounds of `emailSchema`; its address-format check is not
      modelled. */
  predicate EmailLengthOk(e: string) { 1 <= |e| <= 255 }

  /** A character `nameSchema` admits: ASCII letters, U+00C0..U+00FF,
      whitespace, apostrophe and hyphen. */
  predicate IsNameChar(c: char) {
    IsAsciiLower(c) || IsAsciiUpper(c) || (0xC0 <= c as int <= 0xFF) || IsSpace(c) || c == '\'' || c == '-'
  }

  predicate NameOk(n: string) {
    1 <= |n| <= 100 && forall i :: 0 <= i < |n| ==> IsNameChar(n[i])
  }

  /** `registerSchema`: each field's schema and equal passwords. */
  predicate RegisterSchemaAccepts(email: string, password: string, confirmPassword: string, fullName: Option<string>) {
    && EmailLengthOk(email)
    && PasswordIssues(password) == []
    && |confirmPassword| >= 1
    && (fullName.Some? ==> NameOk(fullName.value))
    && password == confirmPassword
  }

  /** Mismatched passwords are always rejected; matching, well-formed
      fields are accepted. */
  lemma RegisterSchemaNeedsMatch(email: string, password: string, confirmPassword: string, fullName: Option<string>)
    ensures password != confirmPassword ==> !RegisterSchemaAccepts(email, password, confirmPassword, fullName)
    ensures RegisterSchemaAccepts(email, password, confirmPassword, fullName) ==>
              8 <= |password| <= 128 && |confirmPassword| >= 8
  {
  }

  /** `profileUpdateSchema`: optional name, weekly goal in [0, 50] and
      daily goal in [0, 10]. The goals are plain numbers, not required to
      be whole. */
  predicate ProfileUpdateAccepts(fullName: Option<string>, currentGoal: Option<real>, dailyGoal: Option<real>) {
    && (fullName.Some? ==> NameOk(fullName.value))
    && (currentGoal.Some? ==> 0.0 <= currentGoal.value <= 50.0)
    && (dailyGoal.Some? ==> 0.0 <= dailyGoal.value <= 10.0)
  }

  /** The fields are checked independently: an update is accepted exactly
      when each of its fields would be accepted on its own, so leaving a
      field out never turns an accepted update into a refused one, and the
      empty update is accepted. */
  lemma ProfileUpdateFieldwise(fullName: Option<string>, currentGoal: Option<real>, dailyGoal: Option<real>)
    ensures ProfileUpdateAccepts(fullName, currentGoal, dailyGoal) <==>
              && ProfileUpdateAccepts(fullName, None, None)
              && ProfileUpdateAccepts(None, currentGoal, None)
              && ProfileUpdateAccepts(None, None, dailyGoal)
    ensures ProfileUpdateAccepts(fullName, currentGoal, dailyGoal) ==>
              && ProfileUpdateAccepts(None, currentGoal, dailyGoal)
              && ProfileUpdateAccepts(fullName, None, dailyGoal)
              && ProfileUpdateAccepts(fullName, currentGoal, None)
    ensures ProfileUpdateAccepts(None, None, None)
  {
  }

  /** The app's default daily goal of 2 is accepted for both goals, a
      fractional daily goal of 2.5 is accepted too, and 10.5 drinks a day or
      -0.5 a week are refused. */
  lemma ProfileGoalExamples()
    ensures ProfileUpdateAccepts(None, Some(DefaultGoal as real), Some(DefaultGoal as real))
    ensures ProfileUpdateAccepts(None, None, Some(2.5))
    ensures !ProfileUpdateAccepts(None, None, Some(10.5))
    ensures !ProfileUpdateAccepts(None, Some(-0.5), None)
  {
  }

  /** `\d{4}-\d{2}-\d{2}` over the whole string; no calendar check. */
  predicate IsDateShape(d: string) {
    && |d| == 10
    && d[4] == '-' && d[7] == '-'
    && forall i :: 0 <= i < 10 && i != 4 && i != 7 ==> IsDigit(d[i])
  }

  /** `dailyLogSchema`: a date of the right shape, a whole number of
      drinks in [0, 50] and notes of at most 1000 characters. */
  predicate DailyLogAccepts(date: string, drinksCount: int, notes: Option<string>, mood: Option<Mood>) {
    && IsDateShape(date)
    && 0 <= drinksCount <= 50
    && (notes.Some? ==> |notes.value| <= 1000)
  }

  /** Dates are checked for shape only, and the drink count is capped. */
  lemma DailyLogSchemaExamples()
    ensures DailyLogAccepts("2024-13-45", 3, None, None)
    ensures !DailyLogAccepts("2024-1-5", 3, None, None)
    ensures !DailyLogAccepts("2024-01-05", 51, None, None)
    ensures DailyLogAccepts("2024-01-05", 50, Some(""), Some(Good))
  {
    assert forall i :: 0 <= i < 10 && i != 4 && i != 7 ==> IsDigit("2024-13-45"[i]);
    assert forall i :: 0 <= i < 10 && i != 4 && i != 7 ==> IsDigit("2024-01-05"[i]);
  }

  /** `chatMessageSchema`: 1 to 2000 characters, not whitespace only. */
  function ChatMessageAccepts(m: string): (ok: bool)
    ensures ok ==> 1 <= |m| <= 2000 && exists i :: 0 <= i < |m| && !IsSpace(m[i])
    ensures ok <==> 1 <= |m| <= 2000 && Trim(m) != []
  {
    1 <= |m| <= 2000 && !IsBlank(m)
  }
}
