/**
 conf.c: finding a variable, rendering it for interpolation, and the early
 stage of interpolation. Defaults that are computed are a pure function of the
 variable's name here.
 */
module Conf {
  import opened Wrappers
  import opened Interpolation
  import opened Text

  datatype Value = Invalid | Integer(i: int) | Str(s: string) | Directory(s: string) | List(items: seq<string>)

  datatype Variable = Variable(name: string, value: Value)

  /** How a variable gets a value that the configuration does not give it. */
  datatype Default = Required | Constant(value: Value) | Computed(compute: string -> Option<Value>)

  datatype Grammar = Grammar(kw: string, pattern: bool, early: bool, default: Default)

  /** Words joined by single blanks. */
  function Join(items: seq<string>): string {
    if items == [] then ""
    else if |items| == 1 then items[0]
    else items[0] + " " + Join(items[1..])
  }

  /** The items stand in their order, with one blank between any two. */
  lemma {:induction false} JoinTwo(a: seq<string>, b: seq<string>)
    ensures a == [] ==> Join(a) == ""
    ensures |a| == 1 ==> Join(a) == a[0]
    ensures a != [] && b != [] ==> Join(a + b) == Join(a) + [' '] + Join(b)
  {
    if |a| > 1 && b != [] {
      JoinTwo(a[1..], b);
      assert (a + b)[1..] == a[1..] + b;
    } else if |a| == 1 && b != [] {
      assert (a + b)[1..] == b;
    }
  }

  function Rendered(v: Value): string
    requires v != Invalid
  {
    match v
    case Integer(i) => Decimal(i)
    case Str(s) => s
    case Directory(s) => s
    case List(items) => Join(items)
  }

  class Config {
    var variables: seq<Variable>
    const grammar: seq<Grammar>
    /** Whether a shell pattern matches a name; only asked for pattern keywords. */
    const fnmatch: (string, string) -> bool
    var early: bool

    constructor (grammar: seq<Grammar>, fnmatch: (string, string) -> bool)
      ensures variables == [] && !early && this.grammar == grammar && this.fnmatch == fnmatch
    {
      variables, early := [], false;
      this.grammar, this.fnmatch := grammar, fnmatch;
    }

    predicate GrammarEquals(gr: Grammar, name: string) {
      gr.kw == name || (gr.pattern && fnmatch(gr.kw, name))
    }

    /** The first grammar entry from index i on that stands for the name. */
    function FindGrammar(name: string, i: nat): Option<Grammar>
      requires i <= |grammar|
      decreases |grammar| - i
    {
      if i == |grammar| then None
      else if GrammarEquals(grammar[i], name) then Some(grammar[i])
      else FindGrammar(name, i + 1)
    }

    predicate IsEarlyVariable(name: string) {
      var gr := FindGrammar(name, 0);
      gr.Some? && gr.value.early
    }

    /** The value of a name given these variables. */
    function Find(vars: seq<Variable>, name: string): Option<Value> {
      if vars != [] then
        if vars[0].name == name then Some(vars[0].value) else Find(vars[1..], name)
      else
        match FindGrammar(name, 0)
        case None => None
        case Some(gr) =>
          match gr.default
          case Required => None
          case Constant(v) => Some(v)
          case Computed(f) => f(name)
    }

    /** What a reference to a name stands for in either stage. */
    function Lookup(vars: seq<Variable>, early: bool, name: string): Option<string> {
      if early && !IsEarlyVariable(name) then None
      else
        match Find(vars, name)
        case None => None
        case Some(v) => if v == Invalid then None else Some(Rendered(v))
    }

    function LookupEnv(vars: seq<Variable>, early: bool): Env {
      name => Lookup(vars, early, name)
    }

    // ----- what a name stands for -----

    /** Entry i of the grammar is the first one with the name, or with a pattern that matches it. */
    ghost predicate FirstEntry(i: nat, name: string) {
      && i < |grammar| && (grammar[i].kw == name || (grammar[i].pattern && fnmatch(grammar[i].kw, name)))
      && forall j :: 0 <= j < i ==> grammar[j].kw != name && !(grammar[j].pattern && fnmatch(grammar[j].kw, name))
    }

    lemma {:induction false} GrammarFrom(name: string, i: nat)
      requires i <= |grammar|
      requires forall j :: 0 <= j < i ==> grammar[j].kw != name && !(grammar[j].pattern && fnmatch(grammar[j].kw, name))
      ensures FindGrammar(name, i).Some? ==> exists k: nat :: FirstEntry(k, name) && FindGrammar(name, i) == Some(grammar[k])
      ensures FindGrammar(name, i).None? ==> forall k: nat :: !FirstEntry(k, name)
      decreases |grammar| - i
    {
      if i < |grammar| {
        if GrammarEquals(grammar[i], name) {
          assert FirstEntry(i, name);
        } else {
          GrammarFrom(name, i + 1);
        }
      }
    }

    lemma EntryIs(name: string, i: nat)
      requires FirstEntry(i, name)
      ensures FindGrammar(name, 0) == Some(grammar[i])
    {
      GrammarFrom(name, 0);
    }

    /**
     In the early stage a name stands for what it stands for otherwise, if the first
     entry of the grammar for it is early, and else for nothing.
     */
    lemma EarlyIff(vars: seq<Variable>, name: string)
      ensures Lookup(vars, true, name) ==
              if exists i: nat :: FirstEntry(i, name) && grammar[i].early then Lookup(vars, false, name) else None
    {
      GrammarFrom(name, 0);
      if i: nat :| FirstEntry(i, name) && grammar[i].early {
        EntryIs(name, i);
      }
    }

    /** The text that a value is replaced by. */
    ghost predicate Shows(v: Value, text: Option<string>) {
      match v
      case Invalid => text == None
      case Integer(i) => text == Some(Decimal(i))
      case Str(s) => text == Some(s)
      case Directory(s) => text == Some(s)
      case List(items) => text == Some(Join(items))
    }

    /** A name stands for the first variable that has it, also if that has no value. */
    lemma {:induction false} VariableShows(vars: seq<Variable>, name: string, i: nat)
      requires i < |vars| && vars[i].name == name && forall j :: 0 <= j < i ==> vars[j].name != name
      ensures Find(vars, name) == Some(vars[i].value) && Shows(vars[i].value, Lookup(vars, false, name))
    {
      if i == 0 {
      } else {
        VariableShows(vars[1..], name, i - 1);
      }
    }

    /** Without a variable it stands for the default of its entry, and without an entry for nothing. */
    lemma {:induction false} DefaultShows(vars: seq<Variable>, name: string)
      requires forall j :: 0 <= j < |vars| ==> vars[j].name != name
      ensures (forall i: nat :: !FirstEntry(i, name)) ==> Lookup(vars, false, name) == None
      ensures forall i: nat :: FirstEntry(i, name) ==>
                match grammar[i].default
                case Required => Lookup(vars, false, name) == None
                case Constant(v) => Shows(v, Lookup(vars, false, name))
                case Computed(f) => if f(name).None? then Lookup(vars, false, name) == None else Shows(f(name).value, Lookup(vars, false, name))
    {
      GrammarFrom(name, 0);
      FindDefault(vars, name);
      forall i: nat | FirstEntry(i, name) ensures FindGrammar(name, 0) == Some(grammar[i]) {
        EntryIs(name, i);
      }
    }

    lemma {:induction false} FindDefault(vars: seq<Variable>, name: string)
      requires forall j :: 0 <= j < |vars| ==> vars[j].name != name
      ensures Find(vars, name) == Find([], name)
    {
      if vars == [] {
      } else {
        FindDefault(vars[1..], name);
      }
    }

    /**
     The early stage replaces a reference to an early name by its value, and copies
     any other reference.
     */
    lemma EarlyReference(vars: seq<Variable>, name: string, v: string)
      requires name != "" && '}' !in name
      ensures (exists i: nat :: FirstEntry(i, name) && grammar[i].early) && Lookup(vars, false, name) == Some(v) && '$' !in v ==>
                Expand(LookupEnv(vars, true), true, ['$', '{'] + name + ['}'], LEVELS) == Result(v, Ok)
      ensures !(exists i: nat :: FirstEntry(i, name) && grammar[i].early) ==>
                Expand(LookupEnv(vars, true), true, ['$', '{'] + name + ['}'], LEVELS) == Result(['$', '{'] + name + ['}'], Ok)
    {
      hide Expand, FindGrammar, Find, FirstEntry;
      EarlyIff(vars, name);
      var env, s := LookupEnv(vars, true), ['$', '{'] + name + ['}'];
      ReferenceText(env, true, "", name, "", LEVELS);
      PlainText(env, true, "", LEVELS);
      assert "" + (s + "") == s;
      if '$' !in v {
        PlainText(env, true, v, LEVELS - 1);
      }
      assert forall x: string :: "" + (x + "") == x;
    }

    method InterpolateStr(template: string) returns (r: Option<string>)
      ensures var e := Expand(LookupEnv(variables, early), false, template, LEVELS);
              r == if e.status == Ok then Some(e.out) else None
    {
      var c := new Context(LookupEnv(variables, early), false);
      var bf := new OutBuffer();
      ghost var e := Expand(c.lookup, c.ignore, template, LEVELS);
      var error := Interpolate(c, bf, template);
      assert "" + e.out == e.out;
      r := if error then None else Some(bf.data);
    }

    /** Expands the early variables of a template and copies all other references. */
    method InterpolateEarly(template: string) returns (r: Option<string>)
      modifies `early
      ensures !early
      ensures var e := Expand(LookupEnv(variables, true), true, template, LEVELS);
              r == if e.status == Ok then Some(e.out) else None
    {
      early := true;
      var c := new Context(LookupEnv(variables, early), true);
      var bf := new OutBuffer();
      ghost var e := Expand(c.lookup, c.ignore, template, LEVELS);
      var error := Interpolate(c, bf, template);
      assert "" + e.out == e.out;
      early := false;
      r := if error then None else Some(bf.data);
    }

    /**
     A template can be interpolated if and only if both stages can and it is
     shallow, and then both ways give the same text. Whenever both stages can,
     they give that text exactly for shallow templates.
     */
    lemma EarlyThenFull(vars: seq<Variable>, template: string)
      ensures var env, ee := LookupEnv(vars, false), LookupEnv(vars, true);
              var direct := Expand(env, false, template, LEVELS);
              var first := Expand(ee, true, template, LEVELS);
              var second := Expand(env, false, first.out, LEVELS);
              var shallow := Shallow(ParsedEnv(env), Parse(template), LEVELS);
              && (direct.status == Ok <==> first.status == Ok && second.status == Ok && shallow)
              && (first.status == Ok && second.status == Ok ==> (direct == second <==> shallow))
    {
      StagedConverse(LookupEnv(vars, false), LookupEnv(vars, true), template, LEVELS);
    }

    /**
     Appends a variable with a list value and then stores the early stage of the
     name's value in its place. Fails if that stage does. The name's value is that
     of the first variable with the name, which an earlier call can have appended.
     */
    method AppendEarly(name: string, items: seq<string>) returns (error: bool)
      modifies this
      ensures !early
      ensures var appended := old(variables) + [Variable(name, List(items))];
              var e := Expand(LookupEnv(appended, true), true, Reference(name), LEVELS);
              && error == (e.status != Ok)
              && variables == if error then appended else old(variables) + [Variable(name, Str(e.out))]
    {
      variables := variables + [Variable(name, List(items))];
      var str := InterpolateEarly(Reference(name));
      if str.None? {
        return true;
      }
      variables := variables[|variables| - 1 := Variable(name, Str(str.value))];
      return false;
    }

    /** Whether the configuration gives the name a value. */
    predicate Present(vars: seq<Variable>, name: string) {
      exists v :: v in vars && v.name == name
    }

    /** An appended variable is found exactly if it is the first of its name. */
    lemma {:induction false} FindAppended(vars: seq<Variable>, name: string, v: Value, n: string)
      ensures Find(vars + [Variable(name, v)], n) ==
              if n == name && !Present(vars, name) then Some(v) else Find(vars, n)
    {
      if vars == [] {
        assert [] + [Variable(name, v)] == [Variable(name, v)];
      } else {
        assert (vars + [Variable(name, v)])[1..] == vars[1..] + [Variable(name, v)];
        assert vars == [vars[0]] + vars[1..];
        assert vars[0] in vars;
        FindAppended(vars[1..], name, v, n);
      }
    }

    /** Early variables have their values in the early stage as well. */
    lemma EarlyKnows(vars: seq<Variable>)
      ensures Early(LookupEnv(vars, true), LookupEnv(vars, false))
    {}

    /** Storing the early stage changes the interpolation of no template that could be interpolated. */
    lemma AppendEarlyKeepsMeaning(vars: seq<Variable>, name: string, items: seq<string>, template: string)
      requires IsEarlyVariable(name)
      requires Expand(LookupEnv(vars + [Variable(name, List(items))], true), true, Reference(name), LEVELS).status == Ok
      requires Expand(LookupEnv(vars + [Variable(name, List(items))], false), false, template, LEVELS).status == Ok
      ensures var appended := vars + [Variable(name, List(items))];
              var e := Expand(LookupEnv(appended, true), true, Reference(name), LEVELS).out;
              Expand(LookupEnv(vars + [Variable(name, Str(e))], false), false, template, LEVELS)
              == Expand(LookupEnv(appended, false), false, template, LEVELS)
    {
      var appended := vars + [Variable(name, List(items))];
      var env := LookupEnv(appended, false);
      var e := Expand(LookupEnv(appended, true), true, Reference(name), LEVELS).out;
      var env2 := LookupEnv(vars + [Variable(name, Str(e))], false);
      forall n ensures env2(n) == if n == name && !Present(vars, name) then Some(e) else env(n) {
        FindAppended(vars, name, Str(e), n);
        FindAppended(vars, name, List(items), n);
      }
      if IsName(name) && !Present(vars, name) {
        FindAppended(vars, name, List(items), name);
        StoredStage(appended, name, Join(items));
        EarlyKnows(appended);
        StoreEarly(env, LookupEnv(appended, true), name, LEVELS - 1, env2, template, LEVELS);
      } else {
        SameNamesSameText(env, env2, template, LEVELS);
      }
    }

    /** The early stage of a reference is that of the value, one level down. */
    lemma StoredStage(vars: seq<Variable>, name: string, text: string)
      requires IsName(name) && IsEarlyVariable(name)
      requires Lookup(vars, false, name) == Some(text)
      ensures Expand(LookupEnv(vars, true), true, Reference(name), LEVELS) == Expand(LookupEnv(vars, true), true, text, LEVELS - 1)
    {
      ParseRender(Ref("", name, End("")));
      assert Render(Ref("", name, End(""))) == Reference(name);
      AloneIsValue(ParsedEnv(LookupEnv(vars, true)), true, name, LEVELS);
    }
  }
}
