/** Rename rules and the rule pipeline: an ordered list of regular-expression
    substitutions applied one after another to a tag string. */
module Rules {
  import opened Foreign

  /** One rename rule: the pattern's source text, its replacement template,
      and the compiled pattern once the loader has compiled it (None while it
      is still uncompiled). */
  datatype RenameRule = RenameRule(fromRE: Option<Regexp>, from: string, to: string)

  /** What applying the rules comes to: a string, or the fatal panic raised
      at the index of a rule that was never compiled. */
  datatype ApplyOutcome = Returned(value: string) | Panicked(index: nat)

  predicate AllCompiled(rules: seq<RenameRule>)
  {
    forall i :: 0 <= i < |rules| ==> rules[i].fromRE.Some?
  }

  /** The index of the first rule that has no compiled pattern. */
  function FirstUncompiled(rules: seq<RenameRule>): (k: nat)
    requires !AllCompiled(rules)
    ensures k < |rules| && rules[k].fromRE.None?
    ensures forall i :: 0 <= i < k ==> rules[i].fromRE.Some?
  {
    if rules[0].fromRE.None? then 0
    else
      assert !AllCompiled(rules[1..]) by {
        var j :| 0 <= j < |rules| && rules[j].fromRE.None?;
        assert rules[1..][j - 1] == rules[j];
      }
      var k := FirstUncompiled(rules[1..]);
      assert forall i :: 1 <= i < k + 1 ==> rules[i] == rules[1..][i - 1];
      1 + k
  }

  /** One rule applied: every match of its pattern replaced by its template. */
  function Step(eng: RegexEngine, rule: RenameRule, x: string): string
    requires rule.fromRE.Some?
  {
    eng.replaceAll(rule.fromRE.value, rule.to, x)
  }

  /** The rules applied as a left fold: rule i sees rule i-1's output. */
  function Fold(eng: RegexEngine, rules: seq<RenameRule>, x: string): string
    requires AllCompiled(rules)
  {
    if rules == [] then x
    else
      var init := rules[..|rules| - 1];
      assert AllCompiled(init) by {
        forall i | 0 <= i < |init| ensures init[i].fromRE.Some? { assert init[i] == rules[i]; }
      }
      Step(eng, rules[|rules| - 1], Fold(eng, init, x))
  }

  /** The meaning of applying `rules` to `x`: the fold when every rule is
      compiled, otherwise a panic at the first uncompiled rule. */
  function Applied(eng: RegexEngine, rules: seq<RenameRule>, x: string): ApplyOutcome
  {
    if AllCompiled(rules) then Returned(Fold(eng, rules, x))
    else Panicked(FirstUncompiled(rules))
  }

  /** The rule pipeline: rewrites `x` rule by rule, panicking on a rule whose
      pattern was never compiled. The panic is never a skipped rule. */
  method ApplyRules(eng: RegexEngine, rules: seq<RenameRule>, x: string) returns (r: ApplyOutcome)
    ensures r == Applied(eng, rules, x)
    ensures r.Panicked? <==> !AllCompiled(rules)
    ensures r.Panicked? ==> r.index < |rules| && rules[r.index].fromRE.None?
  {
    var cur := x;
    var i := 0;
    while i < |rules|
      invariant 0 <= i <= |rules|
      invariant AllCompiled(rules[..i])
      invariant cur == Fold(eng, rules[..i], x)
    {
      var rule := rules[i];
      if rule.fromRE.None? {
        forall j | 0 <= j < i ensures rules[j].fromRE.Some? {
          assert rules[..i][j] == rules[j];
        }
        FirstUncompiledUnique(rules, i);
        return Panicked(i);
      }
      assert rules[..i + 1][..i] == rules[..i];
      assert rules[..i + 1] == rules[..i] + [rule];
      AllCompiledAppend(rules[..i], [rule]);
      cur := eng.replaceAll(rule.fromRE.value, rule.to, cur);
      i := i + 1;
    }
    assert rules[..i] == rules;
    return Returned(cur);
  }

  /** The empty rule list passes its input through. */
  lemma AppliedEmpty(eng: RegexEngine, x: string)
    ensures Applied(eng, [], x) == Returned(x)
  {
  }

  /** Folding a concatenation is folding the first part, then the second. */
  lemma {:induction false} FoldAppend(eng: RegexEngine, a: seq<RenameRule>, b: seq<RenameRule>, x: string)
    requires AllCompiled(a) && AllCompiled(b)
    ensures AllCompiled(a + b)
    ensures Fold(eng, a + b, x) == Fold(eng, b, Fold(eng, a, x))
    decreases |b|
  {
    if b == [] {
      assert a + b == a;
    } else {
      var b' := b[..|b| - 1];
      assert AllCompiled(b') by {
        forall i | 0 <= i < |b'| ensures b'[i].fromRE.Some? { assert b'[i] == b[i]; }
      }
      FoldAppend(eng, a, b', x);
      assert (a + b)[..|a + b| - 1] == a + b';
      assert (a + b)[|a + b| - 1] == b[|b| - 1];
    }
  }

  /** A panic index in the second part of a concatenation, counted in the whole. */
  function ShiftPanic(n: nat, o: ApplyOutcome): ApplyOutcome
  {
    match o
    case Returned(_) => o
    case Panicked(i) => Panicked(n + i)
  }

  /** Applying `a + b` is applying `a` and then `b` to its output; a panic
      in `a` stops the run before `b` is reached. */
  lemma AppliedAppend(eng: RegexEngine, a: seq<RenameRule>, b: seq<RenameRule>, x: string)
    ensures Applied(eng, a + b, x) ==
      match Applied(eng, a, x)
      case Panicked(i) => Panicked(i)
      case Returned(y) => ShiftPanic(|a|, Applied(eng, b, y))
  {
    var ab := a + b;
    assert forall i :: 0 <= i < |a| ==> ab[i] == a[i];
    assert forall i :: |a| <= i < |ab| ==> ab[i] == b[i - |a|];
    if AllCompiled(a) && AllCompiled(b) {
      FoldAppend(eng, a, b, x);
    } else if !AllCompiled(a) {
      var k := FirstUncompiled(a);
      FirstUncompiledUnique(ab, k);
    } else {
      var k := FirstUncompiled(b);
      assert ab[|a| + k] == b[k];
      FirstUncompiledUnique(ab, |a| + k);
    }
  }

  /** Any uncompiled rule preceded only by compiled ones is the first. */
  lemma FirstUncompiledUnique(rules: seq<RenameRule>, k: nat)
    requires k < |rules| && rules[k].fromRE.None?
    requires forall i :: 0 <= i < k ==> rules[i].fromRE.Some?
    ensures !AllCompiled(rules) && FirstUncompiled(rules) == k
  {
    var f := FirstUncompiled(rules);
    assert rules[f].fromRE.None? && rules[k].fromRE.None?;
  }

  lemma AllCompiledAppend(a: seq<RenameRule>, b: seq<RenameRule>)
    requires AllCompiled(a) && AllCompiled(b)
    ensures AllCompiled(a + b)
  {
    forall i | 0 <= i < |a + b| ensures (a + b)[i].fromRE.Some? {
      if i >= |a| { assert (a + b)[i] == b[i - |a|]; }
    }
  }

  /** Two rules compose in sequence, not simultaneously: the second rewrites
      what the first produced. */
  lemma AppliedInSequence(eng: RegexEngine, r1: RenameRule, r2: RenameRule, x: string)
    requires r1.fromRE.Some? && r2.fromRE.Some?
    ensures Applied(eng, [r1, r2], x) == Returned(Step(eng, r2, Step(eng, r1, x)))
  {
    var rs := [r1, r2];
    assert AllCompiled(rs);
    assert rs[..1] == [r1] && [r1][..0] == [];
    assert Fold(eng, [r1], x) == Step(eng, r1, x);
    assert Fold(eng, rs, x) == Step(eng, r2, Fold(eng, [r1], x));
  }
}
