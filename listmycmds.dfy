/** The command-line entry point of listmycmds.py (lines 98-142) apart from the directory
    scan: choosing the patterns, setting up the printer, and printing a file name that
    matches one of the patterns. */
module ListMyCmds {
  import opened Wrappers
  import opened Strings
  import Glob
  import Printer

  /** The pattern actually handed to `fnmatch`: one without `*` is wrapped as `*p*`, so
      the result always holds a `*` and one that has a `*` already is kept. */
  function Wrapped(p: string): (q: string)
    ensures '*' in q
    ensures '*' in p ==> q == p
  {
    if '*' in p then p else "*" + p + "*"
  }

  /** The wrapped pattern contains the pattern given. */
  lemma WrappedContains(p: string)
    ensures IsSubstring(p, Wrapped(p))
  {
    if '*' in p {
      assert StartsWith(Wrapped(p)[0..], p);
    } else {
      var q := Wrapped(p);
      assert q[1..][..|p|] == p;
      assert StartsWith(q[1..], p);
    }
  }

  /** A pattern with no glob metacharacter selects exactly the names that contain it. */
  lemma WrappedIsSubstring(p: string, name: string)
    requires Glob.NoMeta(p)
    ensures Glob.Fnmatch(name, Wrapped(p)) <==> IsSubstring(p, name)
  {
    Glob.SubstringPattern(p, name);
  }

  /** The name is printed: some pattern, wrapped, matches it. */
  predicate Selected(name: string, patterns: seq<string>) {
    exists i :: 0 <= i < |patterns| && Glob.Fnmatch(name, Wrapped(patterns[i]))
  }

  /** Lines 119-120: no patterns given means the single pattern `*`. */
  function EffectivePatterns(patterns: seq<string>): (r: seq<string>)
    ensures r != []
    ensures patterns == [] ==> r == ["*"]
    ensures patterns != [] ==> r == patterns
  {
    if patterns == [] then ["*"] else patterns
  }

  /** Without patterns every file name is printed. */
  lemma NoPatternsSelectAll(name: string)
    ensures Selected(name, EffectivePatterns([]))
  {
    assert Wrapped("*") == "*";
    assert Glob.Tokenize("*") == [Glob.AnyString];
    Glob.StarMatchesAll(name);
    assert Glob.Fnmatch(name, Wrapped(EffectivePatterns([])[0]));
  }

  /** `print_if_pattern_match(fname, patterns, printer)`: tries the patterns in order and,
      at the first one that matches, prints the name once. */
  method PrintIfPatternMatch(fname: string, patterns: seq<string>, printer: Printer.ColumnPrinter)
    requires printer.Valid()
    modifies printer
    ensures printer.Valid()
    ensures var entry := if Selected(fname, patterns) then Some(fname) else None;
      var s := Printer.Step(printer.colsInRow, old(printer.entriesInRow), entry, false);
      && printer.entriesInRow == s.row
      && printer.lines == old(printer.lines) + (if s.emitted == [] then [] else [Printer.FormatRow(s.emitted, printer.colWidth)])
      && printer.fed == old(printer.fed) + Printer.Fed(entry)
  {
    var i := 0;
    while i < |patterns|
      invariant 0 <= i <= |patterns|
      invariant forall j :: 0 <= j < i ==> !Glob.Fnmatch(fname, Wrapped(patterns[j]))
    {
      var p := patterns[i];
      var q := Wrapped(p);
      if Glob.Fnmatch(fname, q) {
        printer.Print(Some(fname), false);
        return;
      }
      i := i + 1;
    }
  }

  /** Lines 122-131: two columns on a terminal unless one column is asked for, and the
      width from COLUMNS (`None` when it is unset or not a number) or else 80. */
  method NewPrinter(singleColumn: bool, isTty: bool, columns: Option<int>) returns (printer: Printer.ColumnPrinter)
    ensures fresh(printer) && printer.Valid()
    ensures printer.colsInRow == (if singleColumn || !isTty then 1 else 2)
    ensures printer.colWidth == (if columns.Some? then columns.value else 80) / printer.colsInRow
    ensures printer.lines == [] && printer.entriesInRow == []
  {
    var colsInRow := 2;
    if singleColumn || !isTty {
      colsInRow := 1;
    }
    var fullWidth := if columns.Some? then columns.value else 80;
    printer := new Printer.ColumnPrinter(colsInRow, fullWidth);
  }
}
