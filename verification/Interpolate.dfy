/**
 interpolate.c: expansion of ${name} references, nested through the values they
 stand for. A template is first seen as a list of pieces; `ExpandPieces` is the
 reference for expansion, and staged expansion is proved on pieces. The methods
 at the end work like the C code, on characters, with one depth counter and one
 output buffer. Strings hold no NUL character, as in C.
 */
module Interpolation {
  import opened Wrappers

  type Env = string -> Option<string>

  /** How an expansion ends. The three failures are the ones the code reports. */
  datatype Status = Ok | TooDeep | BadSyntax | UnknownName

  /** Text written, also when the expansion fails, and how it ended. */
  datatype Result = Result(out: string, status: Status)

  /** Expansion starts with this many levels of nesting. */
  const LEVELS: nat := 4

  // ----- pieces -----

  /** A template cut at its references; a broken one ends where its syntax does. */
  datatype Pieces = End(text: string) | Broken(text: string) | Ref(text: string, name: string, rest: Pieces)

  type PieceEnv = string -> Option<Pieces>

  /** What follows a first part whose expansion is known. */
  function Then(a: Result, b: Result): Result {
    if a.status != Ok then a else Result(a.out + b.out, b.status)
  }

  lemma ThenAssociates(a: Result, b: Result, c: Result)
    ensures Then(Then(a, b), c) == Then(a, Then(b, c))
  {
    assert (a.out + b.out) + c.out == a.out + (b.out + c.out);
  }

  /** ${name} */
  function Reference(name: string): (r: string)
    ensures |r| == |name| + 3
  {
    ['$', '{'] + name + ['}']
  }

  /** Expansion with `levels` levels left. `ignore` copies references to unknown names as they are. */
  function ExpandPieces(env: PieceEnv, ignore: bool, p: Pieces, levels: nat): Result
    decreases levels, p
  {
    if levels == 0 then Result("", TooDeep)
    else
      match p
      case End(t) => Result(t, Ok)
      case Broken(t) => Result(t, BadSyntax)
      case Ref(t, name, rest) =>
        var value := match env(name)
          case None => if ignore then Result(Reference(name), Ok) else Result("", UnknownName)
          case Some(v) => ExpandPieces(env, ignore, v, levels - 1);
        Then(Result(t, Ok), Then(value, ExpandPieces(env, ignore, rest, levels)))
  }

  function Prepend(t: string, p: Pieces): Pieces {
    match p
    case End(x) => End(t + x)
    case Broken(x) => Broken(t + x)
    case Ref(x, name, rest) => Ref(t + x, name, rest)
  }

  function Append(a: Pieces, b: Pieces): Pieces {
    match a
    case End(t) => Prepend(t, b)
    case Broken(_) => a
    case Ref(t, name, rest) => Ref(t, name, Append(rest, b))
  }

  predicate Whole(p: Pieces) {
    match p
    case End(_) => true
    case Broken(_) => false
    case Ref(_, _, rest) => Whole(rest)
  }

  lemma ExpandPrepend(env: PieceEnv, ignore: bool, t: string, p: Pieces, levels: nat)
    requires levels > 0
    ensures ExpandPieces(env, ignore, Prepend(t, p), levels) == Then(Result(t, Ok), ExpandPieces(env, ignore, p, levels))
  {
    match p
    case End(_) =>
    case Broken(_) =>
    case Ref(x, name, rest) =>
      ThenAssociates(Result(t, Ok), Result(x, Ok), ExpandPieces(env, ignore, Ref("", name, rest), levels));
      RefText(env, ignore, x, name, rest, levels);
      RefText(env, ignore, t + x, name, rest, levels);
  }

  lemma RefText(env: PieceEnv, ignore: bool, t: string, name: string, rest: Pieces, levels: nat)
    requires levels > 0
    ensures ExpandPieces(env, ignore, Ref(t, name, rest), levels)
         == Then(Result(t, Ok), ExpandPieces(env, ignore, Ref("", name, rest), levels))
  {
    var r := ExpandPieces(env, ignore, Ref("", name, rest), levels);
    assert forall x: Result :: Then(Result("", Ok), x) == x by {
      forall x: Result ensures Then(Result("", Ok), x) == x { assert "" + x.out == x.out; }
    }
  }

  /** What is appended to a template is expanded after it, if the template itself expands. */
  lemma {:induction false} ExpandAppend(env: PieceEnv, ignore: bool, a: Pieces, b: Pieces, levels: nat)
    requires levels > 0
    ensures ExpandPieces(env, ignore, Append(a, b), levels)
         == Then(ExpandPieces(env, ignore, a, levels), ExpandPieces(env, ignore, b, levels))
  {
    match a
    case End(t) => ExpandPrepend(env, ignore, t, b, levels);
    case Broken(_) =>
    case Ref(t, name, rest) =>
      ExpandAppend(env, ignore, rest, b, levels);
      var value := Value(env, ignore, name, levels);
      var ra, rb := ExpandPieces(env, ignore, rest, levels), ExpandPieces(env, ignore, b, levels);
      ThenAssociates(value, ra, rb);
      ThenAssociates(Result(t, Ok), Then(value, ra), rb);
  }

  /** The expansion of a single reference. */
  function Value(env: PieceEnv, ignore: bool, name: string, levels: nat): Result
    requires levels > 0
  {
    match env(name)
    case None => if ignore then Result(Reference(name), Ok) else Result("", UnknownName)
    case Some(v) => ExpandPieces(env, ignore, v, levels - 1)
  }

  // ----- depth -----

  /** Fewer levels give the same result or fail for want of levels. */
  lemma {:induction false} FewerLevels(env: PieceEnv, ignore: bool, p: Pieces, n: nat, m: nat)
    requires n <= m
    ensures ExpandPieces(env, ignore, p, n) == ExpandPieces(env, ignore, p, m)
         || ExpandPieces(env, ignore, p, n).status == TooDeep
    decreases n, p
  {
    if n > 0 && p.Ref? {
      FewerLevels(env, ignore, p.rest, n, m);
      if env(p.name).Some? {
        FewerLevels(env, ignore, env(p.name).value, n - 1, m - 1);
      }
    }
  }

  /** No reference of the template, or of a value it stands for, lies deeper than `levels` levels. */
  predicate Shallow(env: PieceEnv, p: Pieces, levels: nat)
    decreases levels, p
  {
    && levels > 0
    && (p.Ref? ==>
          && Shallow(env, p.rest, levels)
          && (env(p.name).Some? ==> Shallow(env, env(p.name).value, levels - 1)))
  }

  /** What expands on more levels expands on fewer exactly if it is shallow enough for them. */
  lemma {:induction false} ShallowIff(env: PieceEnv, p: Pieces, n: nat, m: nat)
    requires n <= m && ExpandPieces(env, false, p, m).status == Ok
    ensures ExpandPieces(env, false, p, n).status == Ok <==> Shallow(env, p, n)
    decreases n, p
  {
    if n > 0 && p.Ref? {
      ShallowIff(env, p.rest, n, m);
      ShallowIff(env, env(p.name).value, n - 1, m - 1);
    }
  }

  // ----- staged expansion -----

  /** Pieces left by the early stage: known references replaced, the others kept. */
  datatype Stage = Stage(pieces: Pieces, status: Status)

  function EarlyStage(env: PieceEnv, p: Pieces, levels: nat): Stage
    decreases levels, p
  {
    if levels == 0 then Stage(End(""), TooDeep)
    else
      match p
      case End(t) => Stage(p, Ok)
      case Broken(t) => Stage(End(t), BadSyntax)
      case Ref(t, name, rest) =>
        match env(name)
        case None =>
          var r := EarlyStage(env, rest, levels);
          Stage(Ref(t, name, r.pieces), r.status)
        case Some(v) =>
          var nested := EarlyStage(env, v, levels - 1);
          if nested.status != Ok then Stage(Prepend(t, nested.pieces), nested.status)
          else
            var r := EarlyStage(env, rest, levels);
            Stage(Prepend(t, Append(nested.pieces, r.pieces)), r.status)
  }

  /** ee knows some of the names of env, with the same values. */
  ghost predicate Part(ee: PieceEnv, env: PieceEnv) {
    forall name :: ee(name).Some? ==> ee(name) == env(name)
  }

  /** If a template expands, so does its early stage, and expanding what that left gives the same text. */
  lemma {:induction false} StagedPieces(env: PieceEnv, ee: PieceEnv, p: Pieces, levels: nat)
    requires Part(ee, env) && ExpandPieces(env, false, p, levels).status == Ok
    ensures EarlyStage(ee, p, levels).status == Ok
    ensures ExpandPieces(env, false, EarlyStage(ee, p, levels).pieces, levels) == ExpandPieces(env, false, p, levels)
    decreases levels, p
  {
    if p.Ref? {
      hide Append, Prepend;
      StagedPieces(env, ee, p.rest, levels);
      if ee(p.name).Some? {
        var v := env(p.name).value;
        StagedPieces(env, ee, v, levels - 1);
        var nested, rest := EarlyStage(ee, v, levels - 1).pieces, EarlyStage(ee, p.rest, levels).pieces;
        FewerLevels(env, false, nested, levels - 1, levels);
        ExpandAppend(env, false, nested, rest, levels);
        ExpandPrepend(env, false, p.text, Append(nested, rest), levels);
      }
    }
  }

  /**
   The other direction needs more levels: if the early stage succeeds on n
   levels and what it left expands on m, then the template expands to the same
   text on n + m - 1 levels.
   */
  lemma {:induction false} UnstagedPieces(env: PieceEnv, ee: PieceEnv, p: Pieces, n: nat, m: nat)
    requires Part(ee, env) && EarlyStage(ee, p, n).status == Ok
    requires ExpandPieces(env, false, EarlyStage(ee, p, n).pieces, m).status == Ok
    ensures n > 0 && m > 0
    ensures ExpandPieces(env, false, p, n + m - 1) == ExpandPieces(env, false, EarlyStage(ee, p, n).pieces, m)
    decreases n, p
  {
    if p.Ref? {
      if ee(p.name).None? {
        UnstagedPieces(env, ee, p.rest, n, m);
        FewerLevels(env, false, env(p.name).value, m - 1, n + m - 2);
      } else {
        var v := ee(p.name).value;
        var nested, rest := EarlyStage(ee, v, n - 1).pieces, EarlyStage(ee, p.rest, n).pieces;
        ExpandPrepend(env, false, p.text, Append(nested, rest), m);
        ExpandAppend(env, false, nested, rest, m);
        UnstagedPieces(env, ee, v, n - 1, m);
        UnstagedPieces(env, ee, p.rest, n, m);
      }
    }
  }

  /** The early stage succeeds with the same pieces on every number of levels it succeeds on. */
  lemma {:induction false} FewerStageLevels(ee: PieceEnv, p: Pieces, n: nat, m: nat)
    requires n <= m
    ensures EarlyStage(ee, p, n) == EarlyStage(ee, p, m) || EarlyStage(ee, p, n).status == TooDeep
    decreases n, p
  {
    if n > 0 && p.Ref? {
      FewerStageLevels(ee, p.rest, n, m);
      if ee(p.name).Some? {
        FewerStageLevels(ee, ee(p.name).value, n - 1, m - 1);
      }
    }
  }

  /** Replacing the value of x by what its early stage left changes no expansion that succeeds. */
  lemma {:induction false} StorePieces(env: PieceEnv, ee: PieceEnv, env2: PieceEnv, x: string, k: nat, p: Pieces, levels: nat)
    requires Part(ee, env) && env(x).Some? && EarlyStage(ee, env(x).value, k).status == Ok
    requires env2(x) == Some(EarlyStage(ee, env(x).value, k).pieces)
    requires forall name :: name != x ==> env2(name) == env(name)
    requires ExpandPieces(env, false, p, levels).status == Ok
    ensures ExpandPieces(env2, false, p, levels) == ExpandPieces(env, false, p, levels)
    decreases levels, p
  {
    if p.Ref? {
      hide EarlyStage;
      StorePieces(env, ee, env2, x, k, p.rest, levels);
      if p.name == x {
        StagedPieces(env, ee, env(x).value, levels - 1);
        FewerStageLevels(ee, env(x).value, if k < levels - 1 then k else levels - 1, if k < levels - 1 then levels - 1 else k);
        StorePieces(env, ee, env2, x, k, env2(x).value, levels - 1);
      } else {
        StorePieces(env, ee, env2, x, k, env(p.name).value, levels - 1);
      }
    }
  }

  // ----- templates as text -----

  /** Index of the first c in s, or the length of s. */
  function FindChar(s: string, c: char): (i: nat)
    ensures i <= |s| && c !in s[..i] && (i < |s| ==> s[i] == c)
  {
    if s == "" || s[0] == c then 0 else 1 + FindChar(s[1..], c)
  }

  function Parse(s: string): Pieces
    decreases |s|, 1
  {
    var p := FindChar(s, '$');
    if p == |s| then End(s) else ParseRef(s[..p], s[p + 1..])
  }

  /** The pieces after a dollar sign that stands between `before` and `t`. */
  function ParseRef(before: string, t: string): Pieces
    decreases |t|, 0
  {
    if t == "" || t[0] != '{' then Broken(before)
    else
      var u := t[1..];
      var n := FindChar(u, '}');
      if n == |u| || n == 0 then Broken(before) else Ref(before, u[..n], Parse(u[n + 1..]))
  }

  function Render(p: Pieces): string {
    match p
    case End(t) => t
    case Broken(t) => t
    case Ref(t, name, rest) => t + (Reference(name) + Render(rest))
  }

  /** A name that a reference can be to. */
  predicate IsName(name: string) {
    name != "" && '}' !in name
  }

  /** Texts hold no dollar sign, and names are nonempty and end at a brace. */
  predicate Clean(p: Pieces) {
    match p
    case End(t) => '$' !in t
    case Broken(t) => '$' !in t
    case Ref(t, name, rest) => '$' !in t && IsName(name) && Clean(rest)
  }

  lemma {:induction false} ParseIsClean(s: string)
    ensures Clean(Parse(s))
    decreases |s|
  {
    var p := FindChar(s, '$');
    if p < |s| && s[p + 1..] != "" && s[p + 1..][0] == '{' {
      var u := s[p + 1..][1..];
      var n := FindChar(u, '}');
      if n < |u| {
        ParseIsClean(u[n + 1..]);
      }
    }
  }

  lemma {:induction false} FindCharAfter(a: string, b: string, c: char)
    requires c !in a
    ensures FindChar(a + b, c) == |a| + FindChar(b, c)
  {
    if a == "" {
      assert a + b == b;
    } else {
      assert (a + b)[1..] == a[1..] + b;
      assert a[0] in a;
      FindCharAfter(a[1..], b, c);
    }
  }

  lemma ParseAtDollar(before: string, t: string)
    requires '$' !in before
    ensures Parse(before + (['$'] + t)) == ParseRef(before, t)
  {
    hide ParseRef;
    FindCharAfter(before, ['$'] + t, '$');
    CutAtDollar(before, t);
  }

  lemma CutAtDollar(before: string, t: string)
    ensures var s := before + (['$'] + t);
            |s| == |before| + 1 + |t| && s[..|before|] == before && s[|before| + 1..] == t
    ensures FindChar(['$'] + t, '$') == 0
  {}

  lemma ParseAtBrace(before: string, name: string, rest: string)
    requires '}' !in name && name != ""
    ensures ParseRef(before, ['{'] + (name + (['}'] + rest))) == Ref(before, name, Parse(rest))
  {
    FindCharAfter(name, ['}'] + rest, '}');
    var u := name + (['}'] + rest);
    assert (['{'] + u)[1..] == u;
    assert u[..|name|] == name && u[|name| + 1..] == rest;
  }

  /** Parsing what was rendered gives the pieces back. */
  lemma {:induction false} ParseRender(p: Pieces)
    requires Clean(p) && Whole(p)
    ensures Parse(Render(p)) == p
  {
    match p
    case End(t) =>
      assert FindChar(t, '$') == |t|;
    case Ref(t, name, rest) =>
      ParseRender(rest);
      var x := ['{'] + (name + (['}'] + Render(rest)));
      assert Render(p) == t + (['$'] + x);
      ParseAtDollar(t, x);
      ParseAtBrace(t, name, Render(rest));
  }

  lemma {:induction false} RenderPrepend(t: string, p: Pieces)
    ensures Render(Prepend(t, p)) == t + Render(p)
    ensures '$' !in t && Clean(p) ==> Clean(Prepend(t, p))
    ensures Whole(Prepend(t, p)) == Whole(p)
  {
    match p
    case End(x) =>
    case Broken(x) =>
    case Ref(x, name, rest) =>
      assert (t + x) + (Reference(name) + Render(rest)) == t + (x + (Reference(name) + Render(rest)));
  }

  lemma {:induction false} RenderAppend(a: Pieces, b: Pieces)
    requires Whole(a)
    ensures Render(Append(a, b)) == Render(a) + Render(b)
    ensures Clean(a) && Clean(b) ==> Clean(Append(a, b))
    ensures Whole(Append(a, b)) == Whole(b)
  {
    match a
    case End(t) => RenderPrepend(t, b);
    case Ref(t, name, rest) =>
      RenderAppend(rest, b);
      assert t + (Reference(name) + (Render(rest) + Render(b))) == (t + (Reference(name) + Render(rest))) + Render(b);
  }

  ghost predicate CleanEnv(env: PieceEnv) {
    forall name :: env(name).Some? ==> Clean(env(name).value)
  }

  /** Expansion that copies unknown references writes what the early stage leaves, as text. */
  lemma {:induction false} EarlyText(ee: PieceEnv, p: Pieces, n: nat)
    requires CleanEnv(ee) && Clean(p)
    ensures ExpandPieces(ee, true, p, n).status == EarlyStage(ee, p, n).status
    ensures EarlyStage(ee, p, n).status == Ok ==>
              var q := EarlyStage(ee, p, n).pieces;
              ExpandPieces(ee, true, p, n).out == Render(q) && Clean(q) && Whole(q)
    decreases n, p
  {
    if n > 0 && p.Ref? {
      EarlyText(ee, p.rest, n);
      if ee(p.name).Some? {
        var v := ee(p.name).value;
        EarlyText(ee, v, n - 1);
        var nested, rest := EarlyStage(ee, v, n - 1), EarlyStage(ee, p.rest, n);
        if nested.status == Ok && rest.status == Ok {
          RenderAppend(nested.pieces, rest.pieces);
          RenderPrepend(p.text, Append(nested.pieces, rest.pieces));
        }
      }
    }
  }

  // ----- expansion of text -----

  function ParsedEnv(env: Env): PieceEnv {
    name => match env(name) case None => None case Some(v) => Some(Parse(v))
  }

  /** The result of expanding text in an environment of texts. */
  function Expand(env: Env, ignore: bool, s: string, levels: nat): Result {
    ExpandPieces(ParsedEnv(env), ignore, Parse(s), levels)
  }

  // What expanding means, by the text that comes first; every text is of one of these forms.

  /** A dollar sign that a name in braces follows. */
  predicate Refers(s: string, name: string, rest: string) {
    name != "" && '}' !in name && s == ['$', '{'] + name + ['}'] + rest
  }

  lemma NoLevels(env: Env, ignore: bool, s: string)
    ensures Expand(env, ignore, s, 0) == Result("", TooDeep)
  {}

  /** Text without dollar signs stays as it is. */
  lemma PlainText(env: Env, ignore: bool, s: string, levels: nat)
    requires levels > 0 && '$' !in s
    ensures Expand(env, ignore, s, levels) == Result(s, Ok)
  {
    FindCharAfter(s, "", '$');
    assert s + "" == s;
  }

  /** A reference is replaced by the expansion of its value, one level down. */
  lemma ReferenceText(env: Env, ignore: bool, before: string, name: string, rest: string, levels: nat)
    requires levels > 0 && '$' !in before && name != "" && '}' !in name
    ensures var value := if env(name).Some? then Expand(env, ignore, env(name).value, levels - 1)
                         else if ignore then Result(['$', '{'] + name + ['}'], Ok)
                         else Result("", UnknownName);
            Expand(env, ignore, before + (['$', '{'] + name + ['}'] + rest), levels) ==
            Then(Result(before, Ok), Then(value, Expand(env, ignore, rest, levels)))
  {
    hide Parse, ParseRef;
    var t := ['{'] + (name + (['}'] + rest));
    BracesAround(name, rest);
    ParseAtDollar(before, t);
    ParseAtBrace(before, name, rest);
  }

  lemma BracesAround(name: string, rest: string)
    ensures ['$', '{'] + name + ['}'] + rest == ['$'] + (['{'] + (name + (['}'] + rest)))
    ensures ['$', '{'] + name + ['}'] == Reference(name)
  {}

  /** A dollar sign that no name in braces follows is an error; what comes before it is written. */
  lemma BrokenText(env: Env, ignore: bool, before: string, rest: string, levels: nat)
    requires levels > 0 && '$' !in before && forall name, more :: !Refers(['$'] + rest, name, more)
    ensures Expand(env, ignore, before + (['$'] + rest), levels) == Result(before, BadSyntax)
  {
    hide Refers, FindChar, ParseRef, Parse;
    ParseAtDollar(before, rest);
    NoReference(before, rest);
  }

  lemma NoReference(before: string, rest: string)
    requires forall name, more :: !Refers(['$'] + rest, name, more)
    ensures ParseRef(before, rest) == Broken(before)
  {
    if rest != "" && rest[0] == '{' {
      var u := rest[1..];
      var n := FindChar(u, '}');
      if 0 < n < |u| {
        BraceSplits(rest, n);
        assert Refers(['$'] + rest, u[..n], u[n + 1..]);
      }
    }
  }

  lemma BraceSplits(rest: string, n: nat)
    requires rest != "" && rest[0] == '{' && n < |rest[1..]| && rest[1..][n] == '}'
    ensures ['$'] + rest == ['$', '{'] + rest[1..][..n] + ['}'] + rest[1..][n + 1..]
  {}

  /** The environment of an early stage: it knows some of the names, with the same values. */
  ghost predicate Early(ee: Env, env: Env) {
    forall name :: ee(name).Some? ==> ee(name) == env(name)
  }

  lemma EnvFacts(env: Env)
    ensures CleanEnv(ParsedEnv(env))
  {
    forall name | env(name).Some? ensures Clean(Parse(env(name).value)) {
      ParseIsClean(env(name).value);
    }
  }

  /** The text the early stage writes parses to the pieces the early stage leaves. */
  lemma EarlyParses(ee: Env, s: string, levels: nat)
    ensures var st := EarlyStage(ParsedEnv(ee), Parse(s), levels);
            && Expand(ee, true, s, levels).status == st.status
            && (st.status == Ok ==> Parse(Expand(ee, true, s, levels).out) == st.pieces)
  {
    EnvFacts(ee);
    ParseIsClean(s);
    EarlyText(ParsedEnv(ee), Parse(s), levels);
    var st := EarlyStage(ParsedEnv(ee), Parse(s), levels);
    if st.status == Ok {
      ParseRender(st.pieces);
    }
  }

  /**
   Expanding in two stages is expanding at once: if a template expands, then so
   does its early stage, and expanding that gives the same text.
   */
  lemma Staged(env: Env, ee: Env, s: string, levels: nat)
    requires Early(ee, env) && Expand(env, false, s, levels).status == Ok
    ensures Expand(ee, true, s, levels).status == Ok
    ensures Expand(env, false, Expand(ee, true, s, levels).out, levels) == Expand(env, false, s, levels)
  {
    EarlyParses(ee, s, levels);
    assert Part(ParsedEnv(ee), ParsedEnv(env));
    StagedPieces(ParsedEnv(env), ParsedEnv(ee), Parse(s), levels);
  }

  /**
   The converse holds for exactly the templates that are not nested too deeply:
   a template expands if and only if both stages succeed and it is shallow. If
   both stages succeed, expanding at once gives the same text if and only if the
   template is shallow, and on almost twice the levels it always does.
   */
  lemma StagedConverse(env: Env, ee: Env, s: string, levels: nat)
    requires Early(ee, env) && levels > 0
    ensures var first := Expand(ee, true, s, levels);
            var second := Expand(env, false, first.out, levels);
            var shallow := Shallow(ParsedEnv(env), Parse(s), levels);
            && (Expand(env, false, s, levels).status == Ok <==> first.status == Ok && second.status == Ok && shallow)
            && (first.status == Ok && second.status == Ok ==>
                  && (Expand(env, false, s, levels) == second <==> shallow)
                  && Expand(env, false, s, 2 * levels - 1) == second)
  {
    var first := Expand(ee, true, s, levels);
    hide ExpandPieces, EarlyStage, Parse, Shallow;
    if Expand(env, false, s, levels).status == Ok {
      Staged(env, ee, s, levels);
      ShallowIff(ParsedEnv(env), Parse(s), levels, levels);
    }
    if first.status == Ok && Expand(env, false, first.out, levels).status == Ok {
      EarlyParses(ee, s, levels);
      assert Part(ParsedEnv(ee), ParsedEnv(env));
      UnstagedPieces(ParsedEnv(env), ParsedEnv(ee), Parse(s), levels, levels);
      ShallowIff(ParsedEnv(env), Parse(s), levels, 2 * levels - 1);
      FewerLevels(ParsedEnv(env), false, Parse(s), levels, 2 * levels - 1);
    }
  }

  /** env2 is env with a new value for x. */
  ghost predicate Assigned(env: Env, x: string, value: string, env2: Env) {
    env2(x) == Some(value) && forall name :: name != x ==> env2(name) == env(name)
  }

  /** Replacing a variable by the early stage of its value changes no expansion that succeeds. */
  lemma StoreEarly(env: Env, ee: Env, x: string, k: nat, env2: Env, s: string, levels: nat)
    requires Early(ee, env) && env(x).Some? && Expand(ee, true, env(x).value, k).status == Ok
    requires Assigned(env, x, Expand(ee, true, env(x).value, k).out, env2)
    requires Expand(env, false, s, levels).status == Ok
    ensures Expand(env2, false, s, levels) == Expand(env, false, s, levels)
  {
    EarlyParses(ee, env(x).value, k);
    assert Part(ParsedEnv(ee), ParsedEnv(env));
    StorePieces(ParsedEnv(env), ParsedEnv(ee), ParsedEnv(env2), x, k, Parse(s), levels);
  }

  /** An expansion that succeeds leaves no dollar sign. */
  lemma {:induction false} NoDollarInPieces(env: PieceEnv, p: Pieces, levels: nat)
    requires CleanEnv(env) && Clean(p) && ExpandPieces(env, false, p, levels).status == Ok
    ensures '$' !in ExpandPieces(env, false, p, levels).out
    decreases levels, p
  {
    if p.Ref? {
      NoDollarInPieces(env, p.rest, levels);
      NoDollarInPieces(env, env(p.name).value, levels - 1);
    }
  }

  /** So expanding the outcome again, in any environment, changes nothing. */
  lemma ExpandTwice(env: Env, s: string, levels: nat, env2: Env, ignore: bool, levels2: nat)
    requires Expand(env, false, s, levels).status == Ok && levels2 > 0
    ensures '$' !in Expand(env, false, s, levels).out
    ensures Expand(env2, ignore, Expand(env, false, s, levels).out, levels2) == Expand(env, false, s, levels)
  {
    EnvFacts(env);
    ParseIsClean(s);
    NoDollarInPieces(ParsedEnv(env), Parse(s), levels);
    assert FindChar(Expand(env, false, s, levels).out, '$') == |Expand(env, false, s, levels).out|;
  }

  /** Only the values of names that a reference can be to matter. */
  lemma {:induction false} OnlyNamesMatter(env: PieceEnv, env2: PieceEnv, p: Pieces, levels: nat)
    requires CleanEnv(env) && Clean(p)
    requires forall name :: IsName(name) ==> env2(name) == env(name)
    ensures ExpandPieces(env2, false, p, levels) == ExpandPieces(env, false, p, levels)
    decreases levels, p
  {
    if levels > 0 && p.Ref? {
      assert IsName(p.name);
      OnlyNamesMatter(env, env2, p.rest, levels);
      if env(p.name).Some? {
        OnlyNamesMatter(env, env2, env(p.name).value, levels - 1);
      }
    }
  }

  /** So environments that differ in other names only expand text alike. */
  lemma SameNamesSameText(env: Env, env2: Env, s: string, levels: nat)
    requires forall name :: IsName(name) ==> env2(name) == env(name)
    ensures Expand(env2, false, s, levels) == Expand(env, false, s, levels)
  {
    EnvFacts(env);
    ParseIsClean(s);
    OnlyNamesMatter(ParsedEnv(env), ParsedEnv(env2), Parse(s), levels);
  }

  // ----- what fails -----

  predicate Mentions(p: Pieces, x: string) {
    p.Ref? && (p.name == x || Mentions(p.rest, x))
  }

  /** Each name of the cycle has a value that mentions the next one. */
  ghost predicate Cycle(env: PieceEnv, names: seq<string>) {
    names != [] && forall i :: 0 <= i < |names| ==>
      env(names[i]).Some? && Mentions(env(names[i]).value, names[if i + 1 < |names| then i + 1 else 0])
  }

  /** A template that mentions a name of a cycle never expands, on any number of levels. */
  lemma {:induction false} CycleFails(env: PieceEnv, ignore: bool, names: seq<string>, i: nat, p: Pieces, levels: nat)
    requires Cycle(env, names) && i < |names| && Mentions(p, names[i])
    ensures ExpandPieces(env, ignore, p, levels).status != Ok
    decreases levels, p
  {
    if levels == 0 {
    } else {
      if p.name == names[i] {
        CycleFails(env, ignore, names, if i + 1 < |names| then i + 1 else 0, env(p.name).value, levels - 1);
      } else {
        CycleFails(env, ignore, names, i, p.rest, levels);
      }
    }
  }

  /** A chain of references that is too deep at once, although both stages succeed. */
  lemma DeepChain() returns (env: Env, ee: Env, s: string)
    ensures Early(ee, env) && Expand(ee, true, s, LEVELS).status == Ok
    ensures Expand(env, false, Expand(ee, true, s, LEVELS).out, LEVELS).status == Ok
    ensures Expand(env, false, s, LEVELS).status == TooDeep
  {
    env, ee, s := Chain(), EarlyChain(), Reference(Name(1));
    ChainsAgree();
    LastEarly();
    LastLink(1);
    LastLink(4);
    hide *;
    ChainExpands(env, false, 1);
    ChainExpands(ee, true, 1);
  }

  lemma ChainsAgree()
    ensures Early(EarlyChain(), Chain())
    ensures forall j :: 1 <= j < 4 ==> Chain()(Name(j)) == EarlyChain()(Name(j)) == Some(Reference(Name(j + 1)))
  {}

  /** The last name is not early. */
  lemma LastEarly()
    ensures Expand(EarlyChain(), true, Reference(Name(4)), 1) == Result(Reference(Name(4)), Ok)
  {
    ParseName(4);
    AloneIsValue(ParsedEnv(EarlyChain()), true, Name(4), 1);
  }

  /** It stands for plain text, which needs a level of its own. */
  lemma LastLink(levels: nat)
    requires levels > 0
    ensures Expand(Chain(), false, Reference(Name(4)), levels).status == if levels == 1 then TooDeep else Ok
  {
    ParseName(4);
    assert FindChar(['x'], '$') == 1;
    assert ParsedEnv(Chain())(Name(4)) == Some(End(['x']));
    AloneIsValue(ParsedEnv(Chain()), false, Name(4), levels);
  }

  /** Each name stands for a reference to the next longer one; the fourth stands for plain text. */
  function Chain(): Env {
    name => if |name| < 4 then Some(Reference(Name(|name| + 1))) else Some(['x'])
  }

  function EarlyChain(): Env {
    name => if |name| < 4 then Chain()(name) else None
  }

  function Name(k: nat): (r: string)
    ensures |r| == k && '}' !in r
  {
    seq(k, _ => 'a')
  }

  lemma ParseName(k: nat)
    requires k > 0
    ensures Parse(Reference(Name(k))) == Ref("", Name(k), End(""))
  {
    ParseRender(Ref("", Name(k), End("")));
    assert Render(Ref("", Name(k), End(""))) == Reference(Name(k));
  }

  lemma AloneIsValue(env: PieceEnv, ignore: bool, name: string, levels: nat)
    requires levels > 0
    ensures ExpandPieces(env, ignore, Ref("", name, End("")), levels) == Value(env, ignore, name, levels)
  {
    var r := Value(env, ignore, name, levels);
    assert "" + (r.out + "") == r.out && "" + r.out == r.out;
  }

  /** From link k on, the chain ends as its last link does on one level. */
  lemma {:induction false} ChainExpands(env: Env, ignore: bool, k: nat)
    requires 1 <= k <= 4 && forall j :: 1 <= j < 4 ==> env(Name(j)) == Some(Reference(Name(j + 1)))
    ensures Expand(env, ignore, Reference(Name(k)), 5 - k) == Expand(env, ignore, Reference(Name(4)), 1)
    decreases 4 - k
  {
    if k == 4 {
    } else {
      hide FindChar, ExpandPieces, Reference;
      ChainExpands(env, ignore, k + 1);
      ParseName(k);
      assert ParsedEnv(env)(Name(k)) == Some(Parse(Reference(Name(k + 1))));
      AloneIsValue(ParsedEnv(env), ignore, Name(k), 5 - k);
    }
  }

  // ----- the code -----

  class OutBuffer {
    var data: string

    constructor ()
      ensures data == ""
    {
      data := "";
    }

    method Puts(s: string)
      modifies this
      ensures data == old(data) + s
    {
      data := data + s;
    }
  }

  class Context {
    const lookup: Env
    const ignore: bool
    var depth: nat

    constructor (lookup: Env, ignore: bool)
      ensures this.lookup == lookup && this.ignore == ignore && depth == 0
    {
      this.lookup, this.ignore := lookup, ignore;
      depth := 0;
    }
  }

  /** Appends the expansion to the buffer. The depth is what it was, unless expansion went too deep. */
  method Interpolate(c: Context, bf: OutBuffer, str: string) returns (error: bool)
    requires c.depth <= LEVELS
    modifies c, bf
    ensures var r := Expand(c.lookup, c.ignore, str, LEVELS - old(c.depth));
            && bf.data == old(bf.data) + r.out
            && error == (r.status != Ok)
            && c.depth == old(c.depth) + if r.status == TooDeep then 1 else 0
    decreases LEVELS - c.depth, 2
  {
    c.depth := c.depth + 1;
    if c.depth == LEVELS + 1 {
      return true;
    }
    error := InterpolateInner(c, bf, str);
    c.depth := c.depth - 1;
  }

  method InterpolateInner(c: Context, bf: OutBuffer, template: string) returns (error: bool)
    requires 0 < c.depth <= LEVELS
    modifies c, bf
    ensures var r := Expand(c.lookup, c.ignore, template, LEVELS + 1 - old(c.depth));
            && bf.data == old(bf.data) + r.out
            && error == (r.status != Ok)
            && c.depth == old(c.depth) + if r.status == TooDeep then 1 else 0
    decreases LEVELS + 1 - c.depth, 1
  {
    hide ExpandPieces, Parse, ParseRef, FindChar;
    var str := template;
    ghost var levels := LEVELS + 1 - c.depth;
    ghost var written := "";
    NothingWritten(Expand(c.lookup, c.ignore, str, levels));
    assert bf.data + written == bf.data;
    while true
      invariant c.depth == old(c.depth)
      invariant bf.data == old(bf.data) + written
      invariant Expand(c.lookup, c.ignore, template, levels) ==
                Then(Result(written, Ok), Expand(c.lookup, c.ignore, str, levels))
      decreases |str|
    {
      var p := FindChar(str, '$');
      if p == |str| {
        assert str[..p] == str;
        PlainText(c.lookup, c.ignore, str, levels);
        break;
      }
      ghost var done;
      error, str, done := InterpolateReference(c, bf, str, p);
      ThenAssociates(Result(written, Ok), done, Expand(c.lookup, c.ignore, str, levels));
      ConcatAssociates(old(bf.data), written, done.out);
      if error {
        return true;
      }
      written := written + done.out;
    }
    bf.Puts(str);
    ConcatAssociates(old(bf.data), written, str);
    return false;
  }

  lemma NothingWritten(r: Result)
    ensures Then(Result("", Ok), r) == r
  {
    assert "" + r.out == r.out;
  }

  lemma ConcatAssociates<T>(a: seq<T>, b: seq<T>, c: seq<T>)
    ensures (a + b) + c == a + (b + c)
  {}

  lemma ParseAt(s: string, p: nat)
    requires p == FindChar(s, '$') < |s|
    ensures Parse(s) == ParseRef(s[..p], s[p + 1..])
  {}

  /** One turn of the loop: the text before a dollar sign and the reference that starts there. */
  method InterpolateReference(c: Context, bf: OutBuffer, str: string, p: nat)
    returns (error: bool, after: string, ghost done: Result)
    requires 0 < c.depth <= LEVELS && p == FindChar(str, '$') < |str|
    modifies c, bf
    ensures |after| < |str| && error == (done.status != Ok)
    ensures Expand(c.lookup, c.ignore, str, LEVELS + 1 - old(c.depth)) ==
            Then(done, Expand(c.lookup, c.ignore, after, LEVELS + 1 - old(c.depth)))
    ensures bf.data == old(bf.data) + done.out
    ensures c.depth == old(c.depth) + if done.status == TooDeep then 1 else 0
    decreases LEVELS + 1 - c.depth, 0
  {
    hide ExpandPieces, Parse, ParseRef, FindChar;
    var before := str[..p];
    ParseAt(str, p);
    bf.Puts(before);
    ghost var levels := LEVELS + 1 - c.depth;
    var ref := ReadReference(str[p + 1..], before);
    if ref.None? {
      ExpandAtBroken(c.lookup, c.ignore, str, before, levels);
      return true, "", Result(before, BadSyntax);
    }
    var name := ref.value.0;
    after := ref.value.1;
    ghost var value := Value(ParsedEnv(c.lookup), c.ignore, name, levels);
    done := Then(Result(before, Ok), value);
    ExpandAtReference(c.lookup, c.ignore, str, before, name, after, levels);
    error := PutValue(c, bf, name);
    ConcatAssociates(old(bf.data), before, value.out);
  }

  /** The name in braces behind a dollar sign, and what follows it. */
  method ReadReference(str: string, ghost before: string) returns (r: Option<(string, string)>)
    ensures r.None? ==> ParseRef(before, str) == Broken(before)
    ensures r.Some? ==> ParseRef(before, str) == Ref(before, r.value.0, Parse(r.value.1)) && |r.value.1| < |str|
  {
    if str == "" || str[0] != '{' {
      return None;
    }
    var vs := str[1..];
    var len := FindChar(vs, '}');
    if len == |vs| {
      return None;
    }
    if len == 0 {
      return None;
    }
    return Some((vs[..len], vs[len + 1..]));
  }

  lemma ExpandAtBroken(env: Env, ignore: bool, s: string, before: string, levels: nat)
    requires levels > 0 && Parse(s) == Broken(before)
    ensures forall rest :: Expand(env, ignore, s, levels) == Then(Result(before, BadSyntax), rest)
  {}

  lemma ExpandAtReference(env: Env, ignore: bool, s: string, before: string, name: string, after: string, levels: nat)
    requires levels > 0 && Parse(s) == Ref(before, name, Parse(after))
    ensures Expand(env, ignore, s, levels) ==
            Then(Then(Result(before, Ok), Value(ParsedEnv(env), ignore, name, levels)), Expand(env, ignore, after, levels))
  {
    ThenAssociates(Result(before, Ok), Value(ParsedEnv(env), ignore, name, levels), Expand(env, ignore, after, levels));
  }

  /** Appends the value of a name, or the reference itself if unknown names are ignored. */
  method PutValue(c: Context, bf: OutBuffer, name: string) returns (error: bool)
    requires 0 < c.depth <= LEVELS
    modifies c, bf
    ensures var v := Value(ParsedEnv(c.lookup), c.ignore, name, LEVELS + 1 - old(c.depth));
            && bf.data == old(bf.data) + v.out
            && error == (v.status != Ok)
            && c.depth == old(c.depth) + if v.status == TooDeep then 1 else 0
    decreases LEVELS - c.depth, 3
  {
    var lookup := c.lookup(name);
    if lookup.None? && c.ignore {
      bf.Puts(Reference(name));
      return false;
    }
    if lookup.None? {
      assert bf.data + "" == bf.data;
      return true;
    }
    error := Interpolate(c, bf, lookup.value);
  }
}
