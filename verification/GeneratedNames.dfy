/**
 internal/debugadmin/cobertura_merge.go, parseGeneratedClassName: which class names the C# compiler
 generated, and the parent class and method they belong to.

 The three regular expressions are modelled by their matches. Each has one way to match from a given
 dot on, so a lazy prefix means the first dot from which the rest matches.
 */
module GeneratedNames {
  import opened Options
  import opened Decimal

  datatype Pattern =
    | StateMachine  // ^(.+?)\.<([^>]+)>d__\d+(<[^>]+>)?$
    | LambdaCache   // ^(.+?)\.<>c(<[^>]+>)?$
    | Closure       // ^(.+?)\.<>c__DisplayClass\d+_\d+(<[^>]+>)?$

  /** The longest run of digits at the start. */
  function DigitRun(s: string): (n: nat)
    ensures n <= |s| && (forall i | 0 <= i < n :: IsDigit(s[i])) && (n < |s| ==> !IsDigit(s[n]))
  {
    if s != [] && IsDigit(s[0]) then 1 + DigitRun(s[1..]) else 0
  }

  /** The first position of c, or the length. */
  function Find(s: string, c: char): (n: nat)
    ensures n <= |s| && c !in s[..n] && (n < |s| ==> s[n] == c)
  {
    if s == [] || s[0] == c then 0 else 1 + Find(s[1..], c)
  }

  /** (<[^>]+>)? at the end of the text. */
  predicate IsSuffix(s: string) {
    s == "" || (|s| >= 3 && s[0] == '<' && s[|s| - 1] == '>' && '>' !in s[1..|s| - 1])
  }

  const DOT_ANGLE := ".<"
  const STATE_MARK := ">d__"
  const LAMBDA_MARK := ".<>c"
  const CLOSURE_MARK := ".<>c__DisplayClass"

  /** Digits, then a suffix. */
  function DigitsThenSuffix(s: string): Option<string> {
    var n := DigitRun(s);
    if n > 0 && IsSuffix(s[n..]) then Some(s[n..]) else None
  }

  /** The match of what follows the lazy prefix: the method (empty but for state machines) and the suffix. */
  function Rest(p: Pattern, t: string): Option<(string, string)> {
    match p
    case StateMachine =>
      if !(DOT_ANGLE <= t) then None
      else
        var rest := t[|DOT_ANGLE|..];
        var j := Find(rest, '>');
        var u := rest[j..];
        if j == 0 || !(STATE_MARK <= u) then None
        else
          var suffix := DigitsThenSuffix(u[|STATE_MARK|..]);
          if suffix == None then None else Some((rest[..j], suffix.value))
    case LambdaCache =>
      if LAMBDA_MARK <= t && IsSuffix(t[|LAMBDA_MARK|..]) then Some(("", t[|LAMBDA_MARK|..])) else None
    case Closure =>
      if !(CLOSURE_MARK <= t) then None
      else
        var u := t[|CLOSURE_MARK|..];
        var n := DigitRun(u);
        if n == 0 || n == |u| || u[n] != '_' then None
        else
          var suffix := DigitsThenSuffix(u[n + 1..]);
          if suffix == None then None else Some(("", suffix.value))
  }

  /** The first i from which the rest matches, with no newline before it: the end of the lazy prefix. */
  function FirstMatch(p: Pattern, s: string, i: nat): Option<nat>
    requires i > 0
    decreases |s| - i
  {
    if i > |s| || s[i - 1] == '\n' then None
    else if Rest(p, s[i..]).Some? then Some(i)
    else FirstMatch(p, s, i + 1)
  }

  datatype GeneratedName = NotGenerated | Generated(parent: string, methodName: string)

  function TryPattern(p: Pattern, s: string): GeneratedName {
    match FirstMatch(p, s, 1)
    case None => NotGenerated
    case Some(i) =>
      FirstMatchFound(p, s, 1);
      var (methodName, suffix) := Rest(p, s[i..]).value;
      Generated(s[..i] + suffix, methodName)
  }

  function ParseGeneratedClassName(s: string): GeneratedName {
    var state := TryPattern(StateMachine, s);
    if state.Generated? then state
    else
      var lambda := TryPattern(LambdaCache, s);
      if lambda.Generated? then lambda else TryPattern(Closure, s)
  }

  // ----- the search

  lemma {:induction false} FirstMatchFound(p: Pattern, s: string, from: nat)
    requires from > 0
    ensures match FirstMatch(p, s, from)
            case Some(i) => from <= i <= |s| && Rest(p, s[i..]).Some? && '\n' !in s[from - 1..i]
            case None => true
    decreases |s| - from
  {
    hide Rest;
    if FirstMatch(p, s, from).Some? && from <= |s| && Rest(p, s[from..]) == None {
      FirstMatchFound(p, s, from + 1);
      assert s[from - 1..FirstMatch(p, s, from).value] == [s[from - 1]] + s[from..FirstMatch(p, s, from).value];
    }
  }

  lemma {:induction false} FirstMatchAt(p: Pattern, s: string, from: nat, i: nat)
    requires 0 < from <= i <= |s| && '\n' !in s[from - 1..i]
    requires forall k | from <= k < i :: Rest(p, s[k..]) == None
    requires Rest(p, s[i..]).Some?
    ensures FirstMatch(p, s, from) == Some(i)
    decreases i - from
  {
    hide Rest;
    assert s[from - 1] == s[from - 1..i][0];
    if from < i {
      assert s[from..i] == s[from - 1..i][1..];
      FirstMatchAt(p, s, from + 1, i);
    }
  }

  lemma {:induction false} NoMatch(p: Pattern, s: string, from: nat)
    requires 0 < from
    requires forall k | from <= k <= |s| :: Rest(p, s[k..]) == None
    ensures FirstMatch(p, s, from) == None
    decreases |s| - from
  {
    hide Rest;
    if from <= |s| {
      NoMatch(p, s, from + 1);
    }
  }

  // ----- generation

  predicate Digits(s: string) {
    s != "" && forall i | 0 <= i < |s| :: IsDigit(s[i])
  }

  predicate HasDotAngle(s: string) {
    exists i | 0 <= i < |s| - 1 :: s[i] == '.' && s[i + 1] == '<'
  }

  predicate IsBase(s: string) {
    s != "" && '\n' !in s && !HasDotAngle(s)
  }

  predicate IsMethod(p: Pattern, methodName: string) {
    if p.StateMachine? then methodName != "" && '>' !in methodName else methodName == ""
  }

  /** What the compiler puts after the parent's name. */
  function Render(p: Pattern, methodName: string, d1: string, d2: string, suffix: string): string {
    match p
    case StateMachine => DOT_ANGLE + (methodName + (STATE_MARK + (d1 + suffix)))
    case LambdaCache => LAMBDA_MARK + suffix
    case Closure => CLOSURE_MARK + (d1 + (['_'] + (d2 + suffix)))
  }

  lemma {:induction false} DigitRunOf(d: string, rest: string)
    requires forall i | 0 <= i < |d| :: IsDigit(d[i])
    requires rest == "" || !IsDigit(rest[0])
    ensures DigitRun(d + rest) == |d|
  {
    if d == "" {
      assert d + rest == rest;
    } else {
      DigitRunOf(d[1..], rest);
      assert (d + rest)[1..] == d[1..] + rest;
    }
  }

  lemma {:induction false} FindAfter(s: string, c: char, rest: string)
    requires c !in s && rest != "" && rest[0] == c
    ensures Find(s + rest, c) == |s|
  {
    if s == "" {
      assert s + rest == rest;
    } else {
      FindAfter(s[1..], c, rest);
      assert (s + rest)[1..] == s[1..] + rest;
    }
  }

  lemma DigitsThenSuffixOf(d: string, suffix: string)
    requires Digits(d) && IsSuffix(suffix)
    ensures DigitsThenSuffix(d + suffix) == Some(suffix)
  {
    DigitRunOf(d, suffix);
    assert (d + suffix)[|d|..] == suffix;
  }

  /** The rest of a rendered name matches its own pattern. */
  lemma RestOfRender(p: Pattern, methodName: string, d1: string, d2: string, suffix: string)
    requires IsMethod(p, methodName) && Digits(d1) && Digits(d2) && IsSuffix(suffix)
    ensures Rest(p, Render(p, methodName, d1, d2, suffix)) == Some((methodName, suffix))
  {
    hide Digits, IsSuffix, DigitRun, DigitsThenSuffix;
    var t := Render(p, methodName, d1, d2, suffix);
    match p
    case StateMachine =>
      var u := STATE_MARK + (d1 + suffix);
      Stripped(DOT_ANGLE, methodName + u);
      FindAfter(methodName, '>', u);
      assert (methodName + u)[|methodName|..] == u;
      assert (methodName + u)[..|methodName|] == methodName;
      Stripped(STATE_MARK, d1 + suffix);
      DigitsThenSuffixOf(d1, suffix);
    case LambdaCache =>
      Stripped(LAMBDA_MARK, suffix);
    case Closure =>
      ClosureRest(d1, d2, suffix);
  }

  lemma Stripped(mark: string, t: string)
    ensures mark <= mark + t && (mark + t)[|mark|..] == t
  {}

  lemma Marked(mark: string, t: string)
    requires mark <= t
    ensures t == mark + t[|mark|..]
  {}

  lemma ClosureRest(d1: string, d2: string, suffix: string)
    requires Digits(d1) && Digits(d2) && IsSuffix(suffix)
    ensures Rest(Closure, CLOSURE_MARK + (d1 + (['_'] + (d2 + suffix)))) == Some(("", suffix))
  {
    hide IsSuffix, DigitRun, DigitsThenSuffix;
    var tail := ['_'] + (d2 + suffix);
    var t := CLOSURE_MARK + (d1 + tail);
    Stripped(CLOSURE_MARK, d1 + tail);
    DigitRunOf(d1, tail);
    assert (d1 + tail)[|d1| + 1..] == d2 + suffix;
    DigitsThenSuffixOf(d2, suffix);
  }

  /** Nothing matches from a text that does not start with the dot and angle bracket. */
  lemma NoDotAngle(p: Pattern, t: string)
    requires !(DOT_ANGLE <= t)
    ensures Rest(p, t) == None
  {
    hide DigitRun, IsSuffix, Find;
    assert DOT_ANGLE <= LAMBDA_MARK <= CLOSURE_MARK;
  }

  /** Every match needs a closing bracket before its last character. */
  lemma MatchHasBracket(p: Pattern, t: string)
    ensures Rest(p, t).Some? ==> t != "" && '>' in t[..|t| - 1]
  {
    hide DigitRun, IsSuffix, DigitsThenSuffix;
    if Rest(p, t).Some? {
      match p
      case StateMachine =>
        var rest := t[|DOT_ANGLE|..];
        var j := Find(rest, '>');
        assert rest[j..][..4] == STATE_MARK;
        assert t[..|t| - 1][2 + j] == '>';
      case LambdaCache =>
        assert t[..4] == LAMBDA_MARK;
        assert t[..|t| - 1][2] == '>';
      case Closure =>
        assert t[..18] == CLOSURE_MARK;
        assert t[..|t| - 1][2] == t[..18][2] == '>';
    }
  }

  lemma DotAngleInBase(base: string, rest: string, k: nat)
    requires k < |base| && rest != "" && rest[0] != '<'
    ensures DOT_ANGLE <= (base + rest)[k..] ==> HasDotAngle(base)
  {
    var t := (base + rest)[k..];
    if DOT_ANGLE <= t {
      assert t[0] == DOT_ANGLE[0] && t[1] == DOT_ANGLE[1];
      assert base[k] == '.' && base[k + 1] == '<';
    }
  }

  /** No match starts inside the base. */
  lemma NoMatchInBase(p: Pattern, base: string, rest: string, k: nat)
    requires !HasDotAngle(base) && k < |base| && rest != "" && rest[0] != '<'
    ensures Rest(p, (base + rest)[k..]) == None
  {
    hide Rest, HasDotAngle;
    DotAngleInBase(base, rest, k);
    NoDotAngle(p, (base + rest)[k..]);
  }

  /** After a marker without dots of its own, a match could only start inside the suffix, and none does. */
  lemma NoMatchAfterMarker(p: Pattern, mark: string, suffix: string, k: nat)
    requires '.' !in mark && IsSuffix(suffix) && k <= |mark + suffix|
    ensures Rest(p, (mark + suffix)[k..]) == None
  {
    hide Rest;
    var t := (mark + suffix)[k..];
    if k < |mark| {
      assert t[0] == mark[k];
      NoDotAngle(p, t);
    } else {
      assert t == suffix[k - |mark|..];
      if t != "" && k > |mark| {
        assert t[..|t| - 1] == suffix[1..|suffix| - 1][k - |mark| - 1..];
        MatchHasBracket(p, t);
      } else {
        NoDotAngle(p, t);
      }
    }
  }

  /** The lambda and closure texts are not state machines, and closures are not lambda caches. */
  lemma OtherPatternsFail(p: Pattern, q: Pattern, d1: string, d2: string, suffix: string)
    requires (p.LambdaCache? && q.StateMachine?) || (p.Closure? && !q.Closure?)
    ensures Rest(q, Render(p, "", d1, d2, suffix)) == None
  {
    hide DigitRun, DigitsThenSuffix;
    var t := Render(p, "", d1, d2, suffix);
    assert t[2] == '>';
    if q.StateMachine? {
      assert t[2..][0] == '>';
    } else {
      assert t[4] == '_';
      assert t[4..][0] == '_';
    }
  }

  /** No pattern that comes before p matches anywhere in a name rendered with p. */
  lemma EarlierPatternsFail(p: Pattern, q: Pattern, base: string, d1: string, d2: string, suffix: string)
    requires IsBase(base) && Digits(d1) && Digits(d2) && IsSuffix(suffix)
    requires (p.LambdaCache? && q.StateMachine?) || (p.Closure? && !q.Closure?)
    ensures FirstMatch(q, base + Render(p, "", d1, d2, suffix), 1) == None
  {
    hide Rest, IsSuffix, HasDotAngle, Digits;
    var t := Render(p, "", d1, d2, suffix);
    var s := base + t;
    var mark := if p.LambdaCache? then "<>c" else "<>c__DisplayClass" + d1 + ['_'] + d2;
    assert t == ['.'] + (mark + suffix);
    assert '.' !in mark by { MarkHasNoDot(p, d1, d2); }
    forall k | 1 <= k <= |s| ensures Rest(q, s[k..]) == None {
      if k < |base| {
        NoMatchInBase(q, base, t, k);
      } else if k == |base| {
        assert s[k..] == t;
        OtherPatternsFail(p, q, d1, d2, suffix);
      } else {
        assert s[k..] == (mark + suffix)[k - |base| - 1..];
        NoMatchAfterMarker(q, mark, suffix, k - |base| - 1);
      }
    }
    NoMatch(q, s, 1);
  }

  lemma MarkHasNoDot(p: Pattern, d1: string, d2: string)
    requires Digits(d1) && Digits(d2)
    ensures '.' !in (if p.LambdaCache? then "<>c" else "<>c__DisplayClass" + d1 + ['_'] + d2)
  {
    assert '.' !in d1 && '.' !in d2;
  }

  /**
   Parsing inverts generation: a rendered name gives back the parent, with its generic parameters,
   and the method it was rendered from.
   */
  lemma ParseInvertsGeneration(p: Pattern, base: string, methodName: string, d1: string, d2: string, suffix: string)
    requires IsBase(base) && IsMethod(p, methodName) && Digits(d1) && Digits(d2) && IsSuffix(suffix)
    ensures ParseGeneratedClassName(base + Render(p, methodName, d1, d2, suffix))
         == Generated(base + suffix, methodName)
  {
    hide Rest, IsSuffix, HasDotAngle, Digits;
    var t := Render(p, methodName, d1, d2, suffix);
    var s := base + t;
    forall k | 1 <= k < |base| ensures Rest(p, s[k..]) == None {
      NoMatchInBase(p, base, t, k);
    }
    assert s[|base|..] == t && s[..|base|] == base && s[0..|base|] == base;
    RestOfRender(p, methodName, d1, d2, suffix);
    FirstMatchAt(p, s, 1, |base|);
    if !p.StateMachine? {
      EarlierPatternsFail(p, StateMachine, base, d1, d2, suffix);
    }
    if p.Closure? {
      EarlierPatternsFail(p, LambdaCache, base, d1, d2, suffix);
    }
  }

  /** A name without a dot and angle bracket is never taken for a generated one. */
  lemma OrdinaryNames(s: string)
    requires !HasDotAngle(s)
    ensures ParseGeneratedClassName(s) == NotGenerated
  {
    hide Rest, HasDotAngle;
    forall p: Pattern ensures FirstMatch(p, s, 1) == None {
      forall k | 1 <= k <= |s| ensures Rest(p, s[k..]) == None {
        DotAngleInside(s, k);
        NoDotAngle(p, s[k..]);
      }
      NoMatch(p, s, 1);
    }
  }

  lemma DotAngleInside(s: string, k: nat)
    requires k <= |s|
    ensures DOT_ANGLE <= s[k..] ==> HasDotAngle(s)
  {
    if DOT_ANGLE <= s[k..] {
      assert s[k..][0] == '.' && s[k..][1] == '<';
      assert s[k] == '.' && s[k + 1] == '<';
    }
  }

  /** Conversely a rest that matches was rendered. */
  lemma RestIsRendered(p: Pattern, t: string) returns (d1: string, d2: string)
    requires Rest(p, t).Some?
    ensures Digits(d1) && Digits(d2) && IsMethod(p, Rest(p, t).value.0) && IsSuffix(Rest(p, t).value.1)
    ensures t == Render(p, Rest(p, t).value.0, d1, d2, Rest(p, t).value.1)
  {
    match p
    case StateMachine =>
      d1 := StateIsRendered(t);
      d2 := "0";
    case LambdaCache =>
      Marked(LAMBDA_MARK, t);
      d1, d2 := "0", "0";
    case Closure =>
      d1, d2 := ClosureIsRendered(t);
  }

  lemma SplitDigits(s: string) returns (d: string)
    requires DigitsThenSuffix(s).Some?
    ensures Digits(d) && s == d + DigitsThenSuffix(s).value && IsSuffix(DigitsThenSuffix(s).value)
  {
    hide IsSuffix;
    d := s[..DigitRun(s)];
  }

  lemma StateIsRendered(t: string) returns (d: string)
    requires Rest(StateMachine, t).Some?
    ensures Digits(d) && IsMethod(StateMachine, Rest(StateMachine, t).value.0)
            && IsSuffix(Rest(StateMachine, t).value.1)
    ensures forall d2: string ::
              t == Render(StateMachine, Rest(StateMachine, t).value.0, d, d2, Rest(StateMachine, t).value.1)
  {
    hide IsSuffix, DigitRun, DigitsThenSuffix, Digits;
    var rest := t[|DOT_ANGLE|..];
    var j := Find(rest, '>');
    Marked(DOT_ANGLE, t);
    Marked(STATE_MARK, rest[j..]);
    assert rest == rest[..j] + rest[j..];
    d := SplitDigits(rest[j..][|STATE_MARK|..]);
  }

  lemma ClosureIsRendered(t: string) returns (d1: string, d2: string)
    requires Rest(Closure, t).Some?
    ensures Digits(d1) && Digits(d2) && Rest(Closure, t).value.0 == "" && IsSuffix(Rest(Closure, t).value.1)
    ensures t == Render(Closure, "", d1, d2, Rest(Closure, t).value.1)
  {
    hide IsSuffix, DigitsThenSuffix;
    var u := t[|CLOSURE_MARK|..];
    var n := DigitRun(u);
    Marked(CLOSURE_MARK, t);
    d1 := u[..n];
    assert u == d1 + (['_'] + u[n + 1..]);
    d2 := SplitDigits(u[n + 1..]);
  }

  /** Whatever is taken for a generated name is one: some base and rendering make it up. */
  lemma GeneratedNamesAreRendered(s: string)
    returns (p: Pattern, base: string, d1: string, d2: string, suffix: string)
    requires ParseGeneratedClassName(s).Generated?
    ensures var g := ParseGeneratedClassName(s);
            && base != "" && '\n' !in base && Digits(d1) && Digits(d2) && IsSuffix(suffix) && IsMethod(p, g.methodName)
            && s == base + Render(p, g.methodName, d1, d2, suffix) && g.parent == base + suffix
  {
    hide Rest, IsSuffix, Render, Digits, IsMethod;
    p := if TryPattern(StateMachine, s).Generated? then StateMachine
         else if TryPattern(LambdaCache, s).Generated? then LambdaCache else Closure;
    var i := FirstMatch(p, s, 1).value;
    FirstMatchFound(p, s, 1);
    base, suffix := s[..i], Rest(p, s[i..]).value.1;
    assert s[0..i] == base;
    d1, d2 := RestIsRendered(p, s[i..]);
    assert s == base + s[i..];
  }
  // ----- in the compiler's own words

  /** Generic arguments, if any. */
  function ArgumentsText(arguments: Option<string>): string {
    match arguments
    case None => ""
    case Some(a) => "<" + a + ">"
  }

  predicate IsArguments(arguments: Option<string>) {
    arguments.Some? ==> arguments.value != "" && '>' !in arguments.value
  }

  lemma SuffixIs(s: string)
    ensures IsSuffix(s) <==> exists arguments: Option<string> :: IsArguments(arguments) && s == ArgumentsText(arguments)
  {
    if IsSuffix(s) {
      if s == "" {
        assert IsArguments(None) && s == ArgumentsText(None);
      } else {
        var a := s[1..|s| - 1];
        assert s == "<" + a + ">";
        assert IsArguments(Some(a)) && s == ArgumentsText(Some(a));
      }
    }
    if arguments: Option<string> :| IsArguments(arguments) && s == ArgumentsText(arguments) {
      if arguments.Some? {
        assert s[1..|s| - 1] == arguments.value;
      }
    }
  }

  lemma RenderIs(p: Pattern, methodName: string, d1: string, d2: string, suffix: string)
    ensures Render(StateMachine, methodName, d1, d2, suffix) == ".<" + methodName + ">d__" + d1 + suffix
    ensures Render(LambdaCache, methodName, d1, d2, suffix) == ".<>c" + suffix
    ensures Render(Closure, methodName, d1, d2, suffix) == ".<>c__DisplayClass" + d1 + "_" + d2 + suffix
  {}

  /** State machines, lambda caches and closures parse to their class, with its generic arguments, and method. */
  lemma GeneratedForms(base: string, methodName: string, d1: string, d2: string, arguments: Option<string>)
    requires IsBase(base) && Digits(d1) && Digits(d2) && IsArguments(arguments)
    ensures var suffix := ArgumentsText(arguments);
            && (methodName != "" && '>' !in methodName ==>
                  ParseGeneratedClassName(base + (".<" + methodName + ">d__" + d1 + suffix))
                  == Generated(base + suffix, methodName))
            && ParseGeneratedClassName(base + (".<>c" + suffix)) == Generated(base + suffix, "")
            && ParseGeneratedClassName(base + (".<>c__DisplayClass" + d1 + "_" + d2 + suffix))
               == Generated(base + suffix, "")
  {
    hide ParseGeneratedClassName, Render, IsSuffix;
    var suffix := ArgumentsText(arguments);
    SuffixIs(suffix);
    RenderIs(Closure, methodName, d1, d2, suffix);
    if methodName != "" && '>' !in methodName {
      ParseInvertsGeneration(StateMachine, base, methodName, d1, d2, suffix);
    }
    RenderIs(Closure, "", d1, d2, suffix);
    ParseInvertsGeneration(LambdaCache, base, "", d1, d2, suffix);
    ParseInvertsGeneration(Closure, base, "", d1, d2, suffix);
  }

  // ----- which match

  /** From place i on the text is what the pattern's form puts after a class, and the class is one line before it. */
  ghost predicate FormAt(p: Pattern, s: string, i: nat, methodName: string, suffix: string) {
    && 0 < i <= |s| && '\n' !in s[..i] && IsMethod(p, methodName) && IsSuffix(suffix)
    && exists d1: string, d2: string :: Digits(d1) && Digits(d2) && s[i..] == Render(p, methodName, d1, d2, suffix)
  }

  lemma FormIsMatch(p: Pattern, s: string, i: nat, methodName: string, suffix: string)
    ensures FormAt(p, s, i, methodName, suffix) <==>
              0 < i <= |s| && '\n' !in s[..i] && Rest(p, s[i..]) == Some((methodName, suffix))
  {
    hide Rest, Render, IsSuffix, Digits, IsMethod;
    if FormAt(p, s, i, methodName, suffix) {
      var d1: string, d2: string :| Digits(d1) && Digits(d2) && s[i..] == Render(p, methodName, d1, d2, suffix);
      RestOfRender(p, methodName, d1, d2, suffix);
    }
    if 0 < i <= |s| && '\n' !in s[..i] && Rest(p, s[i..]) == Some((methodName, suffix)) {
      var d1, d2 := RestIsRendered(p, s[i..]);
    }
  }

  lemma {:induction false} FirstMatchIsFirst(p: Pattern, s: string, from: nat, k: nat)
    requires 0 < from <= k <= |s| && '\n' !in s[from - 1..k] && Rest(p, s[k..]).Some?
    ensures FirstMatch(p, s, from).Some? && FirstMatch(p, s, from).value <= k
    decreases k - from
  {
    hide Rest;
    assert s[from - 1] == s[from - 1..k][0];
    if from < k && Rest(p, s[from..]) == None {
      assert s[from..k] == s[from - 1..k][1..];
      FirstMatchIsFirst(p, s, from + 1, k);
    }
  }

  /** A pattern matches where its form first occurs, so that the class is as short as can be; or nowhere. */
  lemma TryExactly(p: Pattern, s: string)
    ensures TryPattern(p, s).NotGenerated? ==> forall i: nat, m: string, suffix: string :: !FormAt(p, s, i, m, suffix)
    ensures TryPattern(p, s).Generated? ==>
              exists i: nat, suffix: string ::
                && FormAt(p, s, i, TryPattern(p, s).methodName, suffix)
                && TryPattern(p, s).parent == s[..i] + suffix
                && forall k: nat, m: string, x: string | FormAt(p, s, k, m, x) :: i <= k
  {
    hide Rest, FormAt, FirstMatch;
    FirstMatchFound(p, s, 1);
    forall k: nat, m: string, x: string | FormAt(p, s, k, m, x)
      ensures FirstMatch(p, s, 1).Some? && FirstMatch(p, s, 1).value <= k
    {
      FormIsMatch(p, s, k, m, x);
      assert s[0..k] == s[..k];
      FirstMatchIsFirst(p, s, 1, k);
    }
    if FirstMatch(p, s, 1).Some? {
      var i := FirstMatch(p, s, 1).value;
      var (m, suffix) := Rest(p, s[i..]).value;
      assert s[0..i] == s[..i];
      FormIsMatch(p, s, i, m, suffix);
      assert FormAt(p, s, i, TryPattern(p, s).methodName, suffix);
    }
  }

  /** The patterns are tried in their order, and the first that matches decides. */
  lemma ParseExactly(s: string)
    ensures var g := ParseGeneratedClassName(s);
            && (g.NotGenerated? <==> forall p: Pattern :: TryPattern(p, s).NotGenerated?)
            && (TryPattern(StateMachine, s).Generated? ==> g == TryPattern(StateMachine, s))
            && (TryPattern(StateMachine, s).NotGenerated? && TryPattern(LambdaCache, s).Generated? ==>
                  g == TryPattern(LambdaCache, s))
            && (TryPattern(StateMachine, s).NotGenerated? && TryPattern(LambdaCache, s).NotGenerated? ==>
                  g == TryPattern(Closure, s))
  {
    hide TryPattern;
    if ParseGeneratedClassName(s).NotGenerated? {
      forall p: Pattern ensures TryPattern(p, s).NotGenerated? {
        match p
        case StateMachine =>
        case LambdaCache =>
        case Closure =>
      }
    }
  }
}
