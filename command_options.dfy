/** What the two commands share in reading their options. */
module CommandOptions {
  import opened Wrappers

  /** `options['outdir']` is set and not empty: `not options['outdir']` treats None and "" alike. */
  predicate OutdirGiven(outdir: Option<string>)
  {
    outdir.Some? && outdir.value != ""
  }
}
