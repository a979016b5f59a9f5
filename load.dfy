/** Loading the rename rules: the rules file is looked up, read and decoded
    (all outside the model), then every pattern is compiled in place. */
module RuleLoader {
  import opened Foreign
  import opened Rules

  /** One decoded `{"from": ..., "to": ...}` record. */
  datatype RuleText = RuleText(from: string, to: string)

  /** What the JSON decoder made of the file's bytes. A type mismatch (a
      number where a string belongs, say) still fills in what it could. */
  datatype Decoded =
    | Parsed(texts: seq<RuleText>)
    | SyntaxError
    | TypeMismatch(partial: seq<RuleText>)

  /** Everything the loader learns from outside before compiling: whether the
      per-user configuration path could be found, whether the rules file
      exists, and what the bytes read from it decode to. A read that fails
      for another reason still hands over the bytes read before the failure
      (none at all decode as a syntax error), and the loader decodes them. */
  datatype RuleSource =
    | ConfigPathFailed
    | FileMissing
    | ReadFailed(decoded: Decoded)
    | FileRead(decoded: Decoded)

  datatype LoadError = ConfigPathError | DecodeError | CompileError(index: nat)

  datatype LoadResult = LoadResult(rules: seq<RenameRule>, err: Option<LoadError>)

  /** A decoded record before compilation. */
  function Uncompiled(texts: seq<RuleText>): seq<RenameRule>
  {
    seq(|texts|, k requires 0 <= k < |texts| => RenameRule(None, texts[k].from, texts[k].to))
  }

  /** A record with its pattern compiled. */
  function CompiledRule(eng: RegexEngine, t: RuleText): RenameRule
    requires eng.compiles(t.from)
  {
    RenameRule(Some(eng.Compile(t.from)), t.from, t.to)
  }

  datatype CompileOutcome = Compiled(rules: seq<RenameRule>) | FailedAt(index: nat)

  /** Compiling every record, stopping at the first pattern that does not
      compile. */
  function CompileAll(eng: RegexEngine, texts: seq<RuleText>): (r: CompileOutcome)
    ensures r.FailedAt? <==> exists k :: 0 <= k < |texts| && !eng.compiles(texts[k].from)
    ensures r.FailedAt? ==>
      && r.index < |texts| && !eng.compiles(texts[r.index].from)
      && forall k :: 0 <= k < r.index ==> eng.compiles(texts[k].from)
    ensures r.Compiled? ==>
      && |r.rules| == |texts|
      && forall k :: 0 <= k < |texts| ==> eng.compiles(texts[k].from) && r.rules[k] == CompiledRule(eng, texts[k])
  {
    if texts == [] then Compiled([])
    else if !eng.compiles(texts[0].from) then FailedAt(0)
    else
      var tail := texts[1..];
      assert forall k :: 1 <= k < |texts| ==> texts[k] == tail[k - 1];
      match CompileAll(eng, tail)
      case Compiled(rs) => Compiled([CompiledRule(eng, texts[0])] + rs)
      case FailedAt(i) => FailedAt(i + 1)
  }

  /** The loader's result, with every decoding failure giving the empty list. */
  function Loaded(eng: RegexEngine, src: RuleSource): LoadResult
  {
    match src
    case ConfigPathFailed => LoadResult([], Some(ConfigPathError))
    case FileMissing => LoadResult([], None)
    case ReadFailed(decoded) => LoadedFrom(eng, decoded)
    case FileRead(decoded) => LoadedFrom(eng, decoded)
  }

  /** The corrected loader once the bytes are decoded. */
  function LoadedFrom(eng: RegexEngine, decoded: Decoded): LoadResult
  {
    match decoded
    case Parsed(texts) =>
      (match CompileAll(eng, texts)
       case Compiled(rules) => LoadResult(rules, None)
       case FailedAt(i) => LoadResult([], Some(CompileError(i))))
    case _ => LoadResult([], Some(DecodeError))
  }

  /** The loader as the source writes it: after a type mismatch it hands back
      the partially decoded, still uncompiled records together with the
      error. */
  function LoadedAsWritten(eng: RegexEngine, src: RuleSource): LoadResult
  {
    match src
    case FileRead(TypeMismatch(partial)) => LoadResult(Uncompiled(partial), Some(DecodeError))
    case ReadFailed(TypeMismatch(partial)) => LoadResult(Uncompiled(partial), Some(DecodeError))
    case _ => Loaded(eng, src)
  }

  /** The loader: takes the outcome of finding, reading and decoding the
      rules file and compiles each record's pattern in place. */
  method ReadRules(eng: RegexEngine, src: RuleSource) returns (rules: seq<RenameRule>, err: Option<LoadError>)
    ensures LoadResult(rules, err) == Loaded(eng, src)
  {
    match src {
      case ConfigPathFailed => return [], Some(ConfigPathError);
      case FileMissing => return [], None;
      case _ =>
        if !src.decoded.Parsed? {
          return [], Some(DecodeError);
        }
        rules, err := CompileRules(eng, src.decoded.texts);
    }
  }

  /** The compile loop: each decoded record gets its compiled pattern,
      written back into the list; the first failure discards the list. */
  method CompileRules(eng: RegexEngine, texts: seq<RuleText>) returns (rules: seq<RenameRule>, err: Option<LoadError>)
    ensures LoadResult(rules, err) == LoadedFrom(eng, Parsed(texts))
  {
    rules := Uncompiled(texts);
    var i := 0;
    while i < |rules|
      invariant 0 <= i <= |rules| == |texts|
      invariant forall k :: 0 <= k < i ==>
        eng.compiles(texts[k].from) && rules[k] == CompiledRule(eng, texts[k])
      invariant forall k :: i <= k < |rules| ==> rules[k] == RenameRule(None, texts[k].from, texts[k].to)
    {
      if !eng.compiles(rules[i].from) {
        return [], Some(CompileError(i));
      }
      rules := rules[i := rules[i].(fromRE := Some(eng.Compile(rules[i].from)))];
      i := i + 1;
    }
    return rules, None;
  }

  /** The three outcomes: a missing file gives no rules and no error; an
      error always comes with the empty list, never a partial one; and
      without an error every rule is compiled, in the order of the file. */
  lemma LoadedOutcomes(eng: RegexEngine, src: RuleSource)
    ensures src == FileMissing ==> Loaded(eng, src) == LoadResult([], None)
    ensures Loaded(eng, src).err.Some? ==> Loaded(eng, src).rules == []
    ensures var res := Loaded(eng, src);
      res.err.None? && (src.FileRead? || src.ReadFailed?) ==>
        src.decoded.Parsed? && |res.rules| == |src.decoded.texts|
        && forall k :: 0 <= k < |res.rules| ==>
          res.rules[k].fromRE == Some(Regexp(src.decoded.texts[k].from))
          && res.rules[k].from == src.decoded.texts[k].from
          && res.rules[k].to == src.decoded.texts[k].to
    ensures AllCompiled(Loaded(eng, src).rules)
  {
  }

  /** A pattern that does not compile rejects the whole list, and the error
      names the first such record. */
  lemma LoadedRejectsBadPattern(eng: RegexEngine, texts: seq<RuleText>, k: nat)
    requires k < |texts| && !eng.compiles(texts[k].from)
    ensures var res := Loaded(eng, FileRead(Parsed(texts)));
      res.rules == [] && res.err.Some? && res.err.value.CompileError?
      && res.err.value.index <= k && !eng.compiles(texts[res.err.value.index].from)
  {
  }

  /** Whatever the loader returns can be applied without a panic. */
  lemma LoadedNeverPanics(eng: RegexEngine, src: RuleSource, x: string)
    ensures Applied(eng, Loaded(eng, src).rules, x).Returned?
  {
    LoadedOutcomes(eng, src);
  }

  /** As written, a type mismatch in the rules file yields a non-empty list of
      uncompiled rules beside the error; the caller carries on with them and
      the first tag string it rewrites panics. */
  lemma AsWrittenTypeMismatchPanics(eng: RegexEngine, x: string)
    ensures var src := FileRead(TypeMismatch([RuleText("", "x")]));
      var res := LoadedAsWritten(eng, src);
      res.err == Some(DecodeError) && |res.rules| == 1
      && Applied(eng, res.rules, x) == Panicked(0)
      && Loaded(eng, src) == LoadResult([], Some(DecodeError))
  {
    var rules := Uncompiled([RuleText("", "x")]);
    assert rules[0].fromRE.None?;
  }
}
