/** Compile: the check that the selector parser consumed the whole input.
    The parser itself is not part of this model; its outcome is an input. */
module Compilation {
  import opened Wrappers
  import opened Ascii
  import opened Selectors

  /** What parsing a simple selector sequence from the start of the input
      reports: the selector and the offset parsing stopped at, or a syntax
      error. */
  datatype ParseOutcome =
    | Parsed(compiled: Selector, offset: nat)
    | ParseFailed(message: Bytes)

  /** Why Compile rejects its input: the parser's error, or input left after
      the selector (remaining counts the unparsed bytes). */
  datatype CompileError =
    | SyntaxError(message: Bytes)
    | LeftOver(source: Bytes, remaining: nat)

  /** Compile succeeds exactly when the parser succeeds and stops at the end
      of the input; a parser error is passed on unchanged, and a parse that
      stops early is rejected with the number of bytes left over. */
  function Compile(sel: Bytes, parsed: ParseOutcome): (r: Result<Selector, CompileError>)
    ensures r.Ok? <==> parsed.Parsed? && parsed.offset >= |sel|
    ensures r.Ok? ==> r.value == parsed.compiled
    ensures parsed.ParseFailed? ==> r == Err(SyntaxError(parsed.message))
    ensures parsed.Parsed? && parsed.offset < |sel| ==> r == Err(LeftOver(sel, |sel| - parsed.offset))
    ensures r.Err? && r.error.LeftOver? ==>
      && parsed.Parsed?
      && r.error.source == sel
      && 0 < r.error.remaining <= |sel|
      && parsed.offset + r.error.remaining == |sel|
  {
    match parsed
    case ParseFailed(message) => Err(SyntaxError(message))
    case Parsed(compiled, offset) =>
      if offset < |sel| then Err(LeftOver(sel, |sel| - offset))
      else Ok(compiled)
  }

  /** Input after a complete selector is rejected, and the error counts
      exactly the bytes of that trailing input; the same selector without
      the trailing input compiles. */
  lemma TrailingInputRejected(sel: Bytes, extra: Bytes, c: Selector)
    requires extra != []
    ensures Compile(sel + extra, Parsed(c, |sel|)) == Err(LeftOver(sel + extra, |extra|))
    ensures Compile(sel, Parsed(c, |sel|)) == Ok(c)
  {
  }
}
