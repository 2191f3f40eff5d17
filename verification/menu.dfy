/**
 * Choosing the newsletter file (lines 13-52): the first command-line
 * argument when there is one, otherwise a numbered menu of the newsletter
 * files and one line typed by the user.
 *
 * The directory listing (`Dir.glob(...).sort`, line 17) and the line read
 * by `gets` (line 32) are parameters: `files` is the sorted listing and
 * `line` is what `gets` returned, None at end of input.
 */
module Menu {
  import opened Options
  import opened Chars
  import opened RubyText
  import Naming

  datatype Choice =
    | FromArgument(path: string)      // line 51
    | Selected(index: nat, path: string)  // line 47
    | Cancelled                       // lines 35-38: exit 0
    | NoFiles                         // lines 19-22: exit 1
    | NoInput                         // `gets` returned nil, so `nil.chomp` raises: exit 1
    | InvalidChoice(number: int)      // lines 42-45: exit 1

  /** `choice.downcase == 'q'`: only "q" and "Q" lower-case to "q". */
  predicate IsQuit(choice: string) {
    choice == "q" || choice == "Q"
  }

  /** The decision of lines 13-52. */
  function Decide(args: seq<string>, files: seq<string>, line: Option<string>): (c: Choice)
    ensures c.FromArgument? <==> |args| > 0
    ensures c.FromArgument? ==> c.path == args[0]
    ensures c.NoFiles? <==> |args| == 0 && |files| == 0
    ensures c.NoInput? <==> |args| == 0 && |files| > 0 && line.None?
    ensures c.Cancelled? <==> |args| == 0 && |files| > 0 && line.Some? && IsQuit(Chomp(line.value))
    ensures c.Selected? ==> c.index < |files| && c.path == files[c.index]
    ensures c.Selected? ==> line.Some? && ToI(Chomp(line.value)) == c.index + 1
    ensures c.InvalidChoice? ==> c.number < 1 || c.number > |files|
  {
    if |args| > 0 then FromArgument(args[0])
    else if |files| == 0 then NoFiles
    else
      match line
      case None => NoInput
      case Some(raw) =>
        var choice := Chomp(raw);
        if IsQuit(choice) then Cancelled else PickNumber(files, ToI(choice))
  }

  /** Lines 42-47: the number n picks `files[n - 1]` when it is in range. */
  function PickNumber(files: seq<string>, n: int): (c: Choice)
    ensures c.Selected? || c.InvalidChoice?
    ensures c.Selected? <==> 1 <= n <= |files|
    ensures c.Selected? ==> c.index == n - 1 && c.path == files[c.index]
    ensures c.InvalidChoice? ==> c.number == n
  {
    if n < 1 || n > |files| then InvalidChoice(n) else Selected(n - 1, files[n - 1])
  }

  /**
   * The exit status when the script stops at this choice, or None when it
   * goes on to read the chosen file.  Only cancelling exits with 0.
   */
  function ExitStatus(c: Choice): (code: Option<int>)
    ensures code.None? <==> c.FromArgument? || c.Selected?
    ensures code == Some(0) <==> c.Cancelled?
    ensures code.Some? ==> code.value == 0 || code.value == 1
  {
    match c
    case FromArgument(_) => None
    case Selected(_, _) => None
    case Cancelled => Some(0)
    case _ => Some(1)
  }

  /** The menu line printed for the file at index i (line 28). */
  function MenuLine(i: nat, file: string): string {
    "  " + ShowNat(i + 1) + ". " + Naming.DisplayName(file)
  }

  /** All menu lines, in listing order (lines 25-29). */
  function MenuLines(files: seq<string>): seq<string> {
    seq(|files|, i requires 0 <= i < |files| => MenuLine(i, files[i]))
  }

  // ---------------------------------------------------------------------
  // Properties
  // ---------------------------------------------------------------------

  /** A typed number keeps its digits through `chomp`, whatever line ending follows it. */
  lemma ChompNumber(number: string, ending: string)
    requires number != [] && IsDigit(number[|number| - 1])
    requires ending in {"", "\n", "\r\n"}
    ensures Chomp(number + ending) == number
  {
    if ending == "" {
      assert number + ending == number;
    } else {
      ChompLine(number);
    }
  }

  /**
   * Typing back the number printed beside a menu entry, with or without a
   * line ending, selects that entry's file.
   */
  lemma ChoosingListedEntry(files: seq<string>, i: nat, ending: string)
    requires i < |files|
    requires ending in {"", "\n", "\r\n"}
    ensures Decide([], files, Some(ShowNat(i + 1) + ending)) == Selected(i, files[i])
  {
    var number := ShowNat(i + 1);
    ChompNumber(number, ending);
    assert !IsQuit(number) by {
      assert IsDigit(number[0]);
    }
    assert ToI(number) == i + 1 by {
      ToIShowNat(i + 1, []);
      assert number + [] == number;
    }
    DecideNumber(files, number + ending);
  }

  /** A typed line that is not `q` and reads as a listed number selects that entry. */
  lemma DecideNumber(files: seq<string>, raw: string)
    requires !IsQuit(Chomp(raw)) && 1 <= ToI(Chomp(raw)) <= |files|
    ensures Decide([], files, Some(raw)) == Selected(ToI(Chomp(raw)) - 1, files[ToI(Chomp(raw)) - 1])
  {
  }

  /**
   * A line without a leading integer never selects a file, whatever digits
   * come later (`x5`, `q1`, `-`): it reads as 0, so it either quits or is
   * rejected with exit status 1.
   */
  lemma NonNumericNeverSelects(files: seq<string>, raw: string)
    requires |files| > 0
    requires var v := DigitsStart(Chomp(raw)); v == [] || !IsDigit(v[0])
    ensures var c := Decide([], files, Some(raw));
      c == Cancelled || c == InvalidChoice(0)
    ensures ExitStatus(Decide([], files, Some(raw))).Some?
  {
    ToIReads(Chomp(raw));
  }

  /**
   * A line that reads as a negative number (`-1`) is rejected with exit
   * status 1: `to_i` keeps the sign, and no entry has a number below 1.
   */
  lemma NegativeNumberRejected(files: seq<string>, raw: string)
    requires |files| > 0
    requires ToI(Chomp(raw)) < 0
    ensures Decide([], files, Some(raw)) == InvalidChoice(ToI(Chomp(raw)))
    ensures ExitStatus(Decide([], files, Some(raw))) == Some(1)
  {
    QuitReadsZero(Chomp(raw));
  }

  /** `q` and `Q` read as 0. */
  lemma QuitReadsZero(choice: string)
    ensures IsQuit(choice) ==> ToI(choice) == 0
  {
    if IsQuit(choice) {
      var c := choice[0];
      assert choice == [c] + [];
      LeadingLetterReadsZero(c, []);
    }
  }

  /** `"-1".to_i` is -1, so typing `-1` is rejected. */
  lemma MinusOneRejected(files: seq<string>)
    requires |files| > 0
    ensures Decide([], files, Some("-1\n")) == InvalidChoice(-1)
  {
    var choice := Chomp("-1\n");
    assert choice == ['-'] + (ShowNat(1) + []) by {
      ChompLine("-1");
      assert "-1" + "\n" == "-1\n";
    }
    NegativeShowNat(1, []);
    NegativeNumberRejected(files, "-1\n");
  }

  /**
   * The number printed on a menu line is what the line reads as: typing or
   * pasting the whole line back, `"  3. name"`, selects that line's file,
   * since `to_i` skips the indent and stops at the dot.
   */
  lemma MenuLineReadsBack(files: seq<string>, i: nat)
    requires i < |files|
    ensures ToI(MenuLines(files)[i]) == i + 1
    ensures Decide([], files, Some(MenuLines(files)[i] + "\n")) == Selected(i, files[i])
  {
    var number, name := ShowNat(i + 1), Naming.DisplayName(files[i]);
    var line := MenuLines(files)[i];
    assert line == "  " + number + ". " + name;
    LineReadsAsNumber(number, name, i + 1);
    TypedLineReadsAsNumber(number, name, i + 1);
    DecideNumber(files, line + "\n");
  }

  /** The printed line `"  <n>. <name>"` reads as n. */
  lemma LineReadsAsNumber(number: string, name: string, n: nat)
    requires n >= 1 && number == ShowNat(n)
    ensures ToI("  " + number + ". " + name) == n
  {
    var line := "  " + number + ". " + name;
    MenuLinePrefix(number, name, "");
    assert line + "" == line;
    IndentedNumber(line, line, number);
    ReadsAsPrintedNumber(number, line[|number| + 2..], n);
  }

  /** The printed line typed back with its newline is not `q` and reads as n. */
  lemma TypedLineReadsAsNumber(number: string, name: string, n: nat)
    requires n >= 1 && number == ShowNat(n)
    ensures var choice := Chomp("  " + number + ". " + name + "\n");
      !IsQuit(choice) && ToI(choice) == n
  {
    var typed := "  " + number + ". " + name + "\n";
    MenuLinePrefix(number, name, "\n");
    var choice := Chomp(typed);
    assert |choice| >= |typed| - 2;
    IndentedNumber(typed, choice, number);
    ReadsAsPrintedNumber(number, choice[|number| + 2..], n);
    assert choice[0] == ' ';
  }

  /** The indent, the printed number and a dot, then anything, read as that number. */
  lemma ReadsAsPrintedNumber(number: string, rest: string, n: nat)
    requires n >= 1 && number == ShowNat(n)
    requires rest != [] && rest[0] == '.'
    ensures ToI("  " + (number + rest)) == n
  {
    assert IsDigit((number + rest)[0]);
    ToISkipsIndent(number + rest);
    ToIShowNat(n, rest);
  }

  /** A menu line, with anything typed after it, starts with the indent, its number and a dot. */
  lemma MenuLinePrefix(number: string, name: string, tail: string)
    ensures var x := "  " + number + ". " + name + tail;
      x[..|number| + 3] == "  " + number + "."
  {
  }

  /** A prefix of x that keeps x's indent, number and dot splits the same way. */
  lemma IndentedNumber(x: string, c: string, number: string)
    requires |number| + 3 <= |c| && c <= x
    requires x[..|number| + 3] == "  " + number + "."
    ensures c == "  " + (number + c[|number| + 2..]) && c[|number| + 2] == '.'
  {
    var q := |number| + 2;
    assert c[..q + 1] == x[..q + 1];
    assert c[..q] == "  " + number;
    assert c == c[..q] + c[q..];
  }
}
