/** The selector's option flags and their membership test. */
module SelectorOptions {

  /**
   * NoOptions is a placeholder no search ever tests; the other four change how a
   * search matches (IgnoreCase), what it reports on failure (Optional), what the new
   * selection keeps (IncludeDelimiters) and whether the cursor moves (NoMove).
   */
  datatype SelectorOption = NoOptions | NoMove | Optional | IncludeDelimiters | IgnoreCase

  /** `option.isInclude(options)`: a scan of the options that stops at the first equal one. */
  method IsInclude(option: SelectorOption, options: seq<SelectorOption>) returns (included: bool)
    ensures included <==> option in options
  {
    for i := 0 to |options|
      invariant option !in options[..i]
    {
      if options[i] == option {
        return true;
      }
    }
    return false;
  }
}
