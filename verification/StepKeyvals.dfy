/** What the key=value arguments of robsd-step -W do to a row. */
module StepKeyvals {
  import opened Wrappers
  import opened Text
  import opened Interpolation
  import opened StepRows
  import opened StepUpsert

  /** The argument gives field f a value; only the first equals sign counts. */
  predicate Gives(kv: string, f: nat, val: string)
    requires f < NFIELDS
  {
    kv == NAMES[f] + (['='] + val)
  }

  /** The argument gives some field a value that this can hold. */
  ghost predicate Accepted(kv: string) {
    exists f: nat, val: string :: f < NFIELDS && Gives(kv, f, val) && Stored(f, val).Some?
  }

  lemma EqualsSplits(kv: string, f: nat, val: string)
    requires f < NFIELDS && Gives(kv, f, val)
    ensures FindChar(kv, '=') == |NAMES[f]| < |kv|
    ensures kv[..|NAMES[f]|] == NAMES[f] && kv[|NAMES[f]| + 1..] == val
    ensures FindField(NAMES[f]) == Some(f)
  {
    NoEquals();
    FindCharAfter(NAMES[f], ['='] + val, '=');
    FindFieldIs(f);
    var n := |NAMES[f]|;
    assert kv[..n] == NAMES[f] && kv[n + 1..] == val;
  }

  lemma NoEquals()
    ensures forall j :: 0 <= j < NFIELDS ==> '=' !in NAMES[j]
  {}

  lemma KeyvalGives(st: Step, kv: string, f: nat, val: string)
    requires f < NFIELDS && Gives(kv, f, val)
    ensures SetKeyval(st, kv) == match Stored(f, val) case None => None case Some(v) => Some(st[f := v])
  {
    EqualsSplits(kv, f, val);
    hide FindChar, FindField, Stored;
  }

  lemma KeyvalSays(st: Step, kv: string) returns (f: nat, val: string)
    requires SetKeyval(st, kv).Some?
    ensures f < NFIELDS && Gives(kv, f, val) && Stored(f, val).Some?
  {
    var n := FindChar(kv, '=');
    f, val := FindField(kv[..n]).value, kv[n + 1..];
    assert kv == kv[..n] + (['='] + val);
  }

  lemma KeyvalAccepted(st: Step, kv: string)
    ensures SetKeyval(st, kv).Some? <==> Accepted(kv)
  {
    hide SetKeyval, Stored, Gives;
    if SetKeyval(st, kv).Some? {
      var f, val := KeyvalSays(st, kv);
    }
    if Accepted(kv) {
      var f: nat, val: string :| f < NFIELDS && Gives(kv, f, val) && Stored(f, val).Some?;
      KeyvalGives(st, kv, f, val);
    }
  }

  /** An argument changes the field that it gives a value, and no other. */
  lemma KeyvalField(st: Step, kv: string, f: nat)
    requires f < NFIELDS && SetKeyval(st, kv).Some?
    ensures forall val :: Gives(kv, f, val) ==> Stored(f, val) == Some(SetKeyval(st, kv).value[f])
    ensures (forall val :: !Gives(kv, f, val)) ==> SetKeyval(st, kv).value[f] == st[f]
  {
    KeyvalAccepted(st, kv);
    var g: nat, v: string :| g < NFIELDS && Gives(kv, g, v) && Stored(g, v).Some?;
    KeyvalGives(st, kv, g, v);
    forall val | Gives(kv, f, val) ensures Stored(f, val) == Some(SetKeyval(st, kv).value[f]) {
      KeyvalGives(st, kv, f, val);
    }
  }

  /** From argument p on, argument i is the last one that gives field f a value. */
  ghost predicate LastGives(kvs: seq<string>, p: nat, i: nat, f: nat, val: string)
    requires i < |kvs| && f < NFIELDS
  {
    p <= i && Gives(kvs[i], f, val) && forall j: nat, w: string :: i < j < |kvs| ==> !Gives(kvs[j], f, w)
  }

  /** What field f becomes from argument p on: what the last argument for it says, or what it was. */
  ghost predicate Given(kvs: seq<string>, p: nat, was: Field, f: nat, field: Field)
    requires f < NFIELDS
  {
    && (forall i: nat, val: string :: i < |kvs| && LastGives(kvs, p, i, f, val) ==> Stored(f, val) == Some(field))
    && ((forall i: nat, val: string :: p <= i < |kvs| ==> !Gives(kvs[i], f, val)) ==> field == was)
  }

  lemma SetAllNext(kvs: seq<string>, p: nat, st: Step)
    requires p < |kvs|
    ensures SetAll(st, kvs[p..]) == match SetKeyval(st, kvs[p]) case None => None case Some(st2) => SetAll(st2, kvs[p + 1..])
  {
    assert kvs[p..][0] == kvs[p] && kvs[p..][1..] == kvs[p + 1..];
  }

  lemma {:induction false} ArgumentsFrom(kvs: seq<string>, p: nat, st: Step)
    requires p <= |kvs|
    ensures SetAll(st, kvs[p..]).Some? <==> forall i :: p <= i < |kvs| ==> Accepted(kvs[i])
    ensures SetAll(st, kvs[p..]).Some? ==> forall f: nat :: f < NFIELDS ==> Given(kvs, p, st[f], f, SetAll(st, kvs[p..]).value[f])
    decreases |kvs| - p
  {
    hide SetKeyval, Accepted, Gives, Stored, Given;
    if p == |kvs| {
      assert kvs[p..] == [];
      forall f: nat | f < NFIELDS ensures Given(kvs, p, st[f], f, st[f]) {
        GivenNothing(kvs, st[f], f);
      }
    } else {
      SetAllNext(kvs, p, st);
      KeyvalAccepted(st, kvs[p]);
      if SetKeyval(st, kvs[p]).Some? {
        var next := SetKeyval(st, kvs[p]).value;
        ArgumentsFrom(kvs, p + 1, next);
        if SetAll(st, kvs[p..]).Some? {
          forall f: nat | f < NFIELDS ensures Given(kvs, p, st[f], f, SetAll(st, kvs[p..]).value[f]) {
            KeyvalField(st, kvs[p], f);
            GivenBefore(kvs, p, st[f], next[f], f, SetAll(st, kvs[p..]).value[f]);
          }
        }
      }
    }
  }

  lemma GivenNothing(kvs: seq<string>, was: Field, f: nat)
    requires f < NFIELDS
    ensures Given(kvs, |kvs|, was, f, was)
  {}

  lemma GivenBefore(kvs: seq<string>, p: nat, was: Field, next: Field, f: nat, field: Field)
    requires p < |kvs| && f < NFIELDS && Given(kvs, p + 1, next, f, field)
    requires forall val :: Gives(kvs[p], f, val) ==> Stored(f, val) == Some(next)
    requires (forall val :: !Gives(kvs[p], f, val)) ==> next == was
    ensures Given(kvs, p, was, f, field)
  {
    hide Gives, Stored;
    forall i: nat, val: string | i < |kvs| && LastGives(kvs, p, i, f, val) ensures Stored(f, val) == Some(field) {
      assert i > p ==> LastGives(kvs, p + 1, i, f, val);
    }
  }

  /**
   Arguments are refused if and only if one of them gives no field a value that it can
   hold. Otherwise each field is what the last argument for it says, and the fields
   that none is for are as they were.
   */
  lemma Arguments(kvs: seq<string>, st: Step)
    ensures SetAll(st, kvs).Some? <==> forall i :: 0 <= i < |kvs| ==> Accepted(kvs[i])
    ensures SetAll(st, kvs).Some? ==> forall f: nat :: f < NFIELDS ==> Given(kvs, 0, st[f], f, SetAll(st, kvs).value[f])
  {
    ArgumentsFrom(kvs, 0, st);
    assert kvs[0..] == kvs;
  }
}
