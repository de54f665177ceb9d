/**
 * The counting parts of the AST and complexity summaries.
 *
 * An AST analysis either lists the functions, classes, imports, exports and
 * variables of a file, or carries the message of the error that stopped it;
 * its summary reports the five counts or the error. A complexity analysis
 * carries an optional error message, the aggregate cyclomatic complexity, the
 * per-method metrics and the physical line count; its summary reports those
 * and the number of methods whose cyclomatic complexity exceeds 10. The
 * summaries test the error with JavaScript truthiness, so an empty message
 * counts as no error. Parsing, the metrics themselves and the rendering of
 * the summary text are not modelled; listed items are represented by their
 * names.
 */
module AnalysisSummary {
  import opened Common

  // ---------------------------------------------------------------------------
  // AST summary

  datatype AstResult =
    | AstAnalysis(file: string, functions: seq<string>, classes: seq<string>, imports: seq<string>,
                  exports: seq<string>, variables: seq<string>)
    | AstFailure(error: string, file: string)

  datatype AstSummary =
    | AstError(message: string)
    | AstCounts(file: string, functions: nat, classes: nat, imports: nat, exports: nat, variables: nat)
    /** Reading `.length` of the absent `functions` throws a TypeError. */
    | AstThrows

  /**
   * `getASTSummary`: the error when the result carries a non-empty one;
   * otherwise the counts, which a failure with an empty message does not have.
   */
  function ASTSummary(r: AstResult): (s: AstSummary)
    ensures s.AstError? <==> r.AstFailure? && r.error != ""
    ensures s.AstError? ==> s.message == r.error
    ensures s.AstThrows? <==> r.AstFailure? && r.error == ""
    ensures s.AstCounts? <==> r.AstAnalysis?
    ensures s.AstCounts? ==> s.file == r.file && s.functions == |r.functions| && s.classes == |r.classes|
                             && s.imports == |r.imports| && s.exports == |r.exports| && s.variables == |r.variables|
  {
    match r
    case AstFailure(error, _) => if error != "" then AstError(error) else AstThrows
    case AstAnalysis(file, fns, cls, imps, exps, vars) => AstCounts(file, |fns|, |cls|, |imps|, |exps|, |vars|)
  }

  // ---------------------------------------------------------------------------
  // Complexity summary

  datatype MethodMetrics = MethodMetrics(name: string, line: nat, cyclomatic: int)

  datatype ComplexityResult = ComplexityResult(
    error: Option<string>, file: string, cyclomatic: int, methods: seq<MethodMetrics>, slocPhysical: int)

  /** What `analyzeComplexity` returns when reading or analysing the file throws. */
  function ComplexityFailure(message: string, file: string): ComplexityResult {
    ComplexityResult(Some(message), file, 0, [], 0)
  }

  datatype ComplexitySummary =
    | ComplexityError(message: string)
    | ComplexityCounts(file: string, cyclomatic: int, methods: nat, highComplexity: nat, slocPhysical: int)

  /** The threshold of `m.cyclomatic > 10`. */
  const HighComplexityThreshold: int := 10

  predicate IsHighComplexity(m: MethodMetrics) {
    m.cyclomatic > HighComplexityThreshold
  }

  /** `complexityResult.methods.filter(m => m.cyclomatic > 10)` */
  function HighComplexity(ms: seq<MethodMetrics>): seq<MethodMetrics> {
    Filter(ms, IsHighComplexity)
  }

  /** `getComplexitySummary` without the maintainability index. */
  function ComplexitySummaryOf(r: ComplexityResult): (s: ComplexitySummary)
    ensures s.ComplexityError? <==> r.error.Some? && r.error.value != ""
  {
    if r.error.Some? && r.error.value != "" then ComplexityError(r.error.value)
    else ComplexityCounts(r.file, r.cyclomatic, |r.methods|, |HighComplexity(r.methods)|, r.slocPhysical)
  }

  /**
   * The high-complexity count is the number of methods above the threshold:
   * at most the number of methods, equal to it exactly when every method is
   * above, and zero exactly when none is.
   */
  lemma HighComplexityCount(ms: seq<MethodMetrics>)
    ensures |HighComplexity(ms)| <= |ms|
    ensures |HighComplexity(ms)| == |ms| <==> forall i :: 0 <= i < |ms| ==> ms[i].cyclomatic > HighComplexityThreshold
    ensures |HighComplexity(ms)| == 0 <==> forall i :: 0 <= i < |ms| ==> ms[i].cyclomatic <= HighComplexityThreshold
  {
    FilterCount(ms, IsHighComplexity);
  }

  /** Counting splits over a concatenation of method lists. */
  lemma HighComplexityAppend(a: seq<MethodMetrics>, b: seq<MethodMetrics>)
    ensures |HighComplexity(a + b)| == |HighComplexity(a)| + |HighComplexity(b)|
  {
    FilterAppend(a, b, IsHighComplexity);
  }

  /**
   * A failed analysis is summarised as its error, unless the message is
   * empty: then the zeroed failure result is summarised like an empty file.
   */
  lemma FailedComplexitySummary(message: string, file: string)
    ensures message != "" ==> ComplexitySummaryOf(ComplexityFailure(message, file)) == ComplexityError(message)
    ensures message == "" ==> ComplexitySummaryOf(ComplexityFailure(message, file)) == ComplexityCounts(file, 0, 0, 0, 0)
  {
  }

  /** The counts of a successful analysis: every method counted, the high ones among them. */
  lemma ComplexityCountsOf(r: ComplexityResult)
    requires r.error.None?
    ensures ComplexitySummaryOf(r).ComplexityCounts?
    ensures ComplexitySummaryOf(r).methods == |r.methods|
    ensures ComplexitySummaryOf(r).highComplexity <= ComplexitySummaryOf(r).methods
    ensures forall m :: m in r.methods && m.cyclomatic > HighComplexityThreshold ==> ComplexitySummaryOf(r).highComplexity > 0
  {
    HighComplexityCount(r.methods);
    forall m | m in r.methods && m.cyclomatic > HighComplexityThreshold
      ensures ComplexitySummaryOf(r).highComplexity > 0
    {
      assert m in HighComplexity(r.methods);
    }
  }
}
