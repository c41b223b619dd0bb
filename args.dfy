/** The delimiter decision of args.py: the conflicting-flags check and the choice
    between the `--tsv`/`--csv` flags and the input file's suffix. */
module Args {
  import opened Wrappers

  /** The parsed command line as far as the delimiter rule reads it: the two flags
      and `args.input.suffix`. */
  datatype Arguments = Arguments(tsv: bool, csv: bool, inputSuffix: string)

  datatype Outcome = Pass | Fail(error: PyError)

  const ConflictMessage: string := "Please choose either --tsv or --csv, not both."

  /** `validate_args`: raises `ValueError` exactly when both flags are set. */
  function ValidateArgs(args: Arguments): (r: Outcome)
    ensures r.Fail? <==> args.tsv && args.csv
    ensures r.Fail? ==> r.error == ValueError(ConflictMessage)
  {
    if args.tsv && args.csv then Fail(ValueError(ConflictMessage)) else Pass
  }

  /** `select_input_type`: the delimiter, or `None` to let the reader guess. */
  function SelectInputType(args: Arguments): (delim: Option<string>)
    ensures delim == Some("\t") || delim == Some(",") || delim == None
    ensures args.tsv ==> delim == Some("\t")
    ensures !args.tsv && args.csv ==> delim == Some(",")
    ensures !args.tsv && !args.csv ==>
      (delim == Some("\t") <==> args.inputSuffix == ".tsv") &&
      (delim == Some(",") <==> args.inputSuffix == ".csv") &&
      (delim == None <==> args.inputSuffix != ".tsv" && args.inputSuffix != ".csv")
  {
    if args.tsv then Some("\t")
    else if args.csv then Some(",")
    else if args.inputSuffix == ".tsv" then Some("\t")
    else if args.inputSuffix == ".csv" then Some(",")
    else None
  }

  /** After a successful `validate_args`, a set flag decides the delimiter whatever
      the suffix, and the suffix is only read when no flag is set. */
  lemma FlagsBeforeSuffix(args: Arguments, otherSuffix: string)
    requires ValidateArgs(args).Pass?
    requires args.tsv || args.csv
    ensures SelectInputType(args) == SelectInputType(args.(inputSuffix := otherSuffix))
    ensures SelectInputType(args) == if args.tsv then Some("\t") else Some(",")
  {
  }
}
