# Newsletter preview: front matter, menu choice and web address

`scripts/preview_email.rb` turns one newsletter issue, a markdown file with a
YAML front-matter block, into an email-ready HTML preview. Most of the script
hands work to libraries: YAML, Redcarpet, SassC, ERB and Premailer. This
project models the pure logic in front of those calls and proves its
properties in Dafny 4.11:

- **Choosing the file** (lines 13-52). If a command-line argument is given,
  the first one is the file. Otherwise the script lists the sorted
  `source/the-becoming/*.html.md` files as a numbered menu and reads one
  line. `q` or `Q` cancels with exit status 0. A number from 1 to the number
  of files selects that file. Anything else exits with status 1, and so does
  an empty listing.
- **Splitting the front matter** (lines 61-71). The Ruby regular expression
  `\A(---\s*\n.*?\n?)^((---|\.\.\.)\s*$\n?)/m` cuts the text into a header,
  a terminator block and the body. When nothing matches, the script exits
  with status 1.
- **Name and web address** (lines 27, 108-110). `File.basename(path,
  '.html.md')` gives the menu's display name. The web address is
  `https://andreamignolo.com/the-becoming/<name>/`.

Files and modules:

| file | module | contents |
|---|---|---|
| options.dfy | `Options` | `Option` |
| chars.dfy | `Chars` | Ruby's ASCII whitespace class (`\s` in regular expressions, `ISSPACE` in `to_i`), digits |
| frontmatter.dfy | `FrontMatter` | the pattern as a predicate (`MatchAt`, `Earliest`), the scanning split (`Split`), their agreement, the shape of a split, composing a document and splitting it again |
| rubytext.dfy | `RubyText` | `String#chomp`, `String#to_i`, and the decimal rendering the menu prints |
| naming.dfy | `Naming` | `File.basename` with a suffix, the display name, the web address and its inverse |
| menu.dfy | `Menu` | the argument/menu decision and its exit statuses |
| preview.dfy | `Preview` | the whole front end: choice, existence check, read, split, web address |

How the regular expression is read. Ruby (Onigmo) tries the alternatives of
a backtracking match in a fixed order. The lazy `.*?` tries the shortest
header first, so the earliest closing line wins. On that line the greedy
`\s*` and `\n?` then take as much as they can. That is why blank lines
after the closing `---` belong to the terminator and not to the body. The
greedy `\s*` on the opening line can stop at any newline of the first
whitespace run, but `OpeningChoiceIrrelevant` proves that this choice never
changes the captures. `Earliest` states the match Ruby returns: the least
closing-line start, then the longest terminator block. `Split` computes the
split by scanning, and `SplitIsEarliestMatch` proves that the two agree. The
anchors follow Onigmo. `^` holds at the start of the text or after a newline
that is not the last character. `$` holds at the end of the text or before a
newline. `\s` is the six ASCII whitespace characters.

How `to_i` is read. Leading whitespace is skipped. Then come one optional
sign and an optional `0d`/`0D` radix prefix, then digits where single
underscores may separate digits. With no digits the value is 0. So `" 2"`
selects the second file, `"2nd"` selects it too, and `"0d2"` also reads as
2.

The first command-line argument, when there is one, is always taken as
the file path.

## Model

| member | source | states |
|---|---|---|
| FrontMatter.SpaceRunEnd | scripts/preview_email.rb:65 | each greedy `\s*` stops exactly at the first non-whitespace character or at the end of the text |
| FrontMatter.ClosingEnd | scripts/preview_email.rb:65 | at a line start, the closing group `^((---\|\.\.\.)\s*$\n?)` matches exactly when a result is returned; the result is the end of a real match and no match there ends later (greedy) |
| FrontMatter.FirstClosing | scripts/preview_email.rb:65 | the returned line is the first one at or after the opening newline where the closing group matches; no line before it matches; if none is returned, no line matches |
| FrontMatter.Split | scripts/preview_email.rb:65-67 | on success `header + terminator + body` is the whole file text, so the body is the suffix after `$1.size + $2.size` characters |
| FrontMatter.OpeningChoiceIrrelevant | scripts/preview_email.rb:65 | where the opening `---\s*\n` stops inside its whitespace run does not change which header and terminator match |
| FrontMatter.SplitIsEarliestMatch | scripts/preview_email.rb:65-70 | the split fails exactly when the pattern has no match (the no-front-matter exit); otherwise it returns the match Ruby picks: earliest closing line, longest terminator |
| FrontMatter.HeaderShape | scripts/preview_email.rb:65-66 | the header passed to YAML begins with `---` and ends with the newline before the closing line |
| FrontMatter.GreedyClosingShape | scripts/preview_email.rb:65 | the chosen terminator block is `---` or `...`, then only whitespace, and it ends at the end of the text or just after a newline |
| FrontMatter.TerminatorShape | scripts/preview_email.rb:65 | the terminator is `---` or `...` followed only by whitespace, and the body starts at a line boundary |
| FrontMatter.GreedyClosingSwallowsBlankLines | scripts/preview_email.rb:65-67 | after the greedy terminator, the remaining text has no whitespace-only line and is not all whitespace |
| FrontMatter.BodyHasNoLeadingBlankLine | scripts/preview_email.rb:65-67 | every body the split returns is one the terminator leaves alone (`KeepsBody`): its leading whitespace holds no newline, and it is not whitespace only, because the terminator's `\s*` swallows such lines |
| FrontMatter.SplitCompose | scripts/preview_email.rb:63-67 | a document written as `---`, header, `---`, body splits back into `---\n` plus that header, `---\n` and that body, when the header is empty or ends in a newline and has no line starting with `---`/`...`, and the body satisfies `KeepsBody`; so `"---\ntitle: x\n---\n\nBody"` gives the body `"Body"`, not `"\nBody"` |
| FrontMatter.SplitComposeExactly | scripts/preview_email.rb:65-67 | for such a header, the composed document splits back into its parts if and only if the body satisfies `KeepsBody` |
| RubyText.Chomp | scripts/preview_email.rb:32 | `chomp` removes a trailing `\r\n` as a pair, otherwise one trailing `\n` or `\r`, otherwise nothing; the result is always a prefix of the line |
| RubyText.ChompLine | scripts/preview_email.rb:32 | a line read with its `\n` or `\r\n` comes back as the typed text |
| RubyText.ShowNat | scripts/preview_email.rb:28 | the menu number is a non-empty string of digits with no leading zero |
| RubyText.DecimalShowNat | scripts/preview_email.rb:28 | the digits printed for a number denote that number |
| RubyText.DigitRun | scripts/preview_email.rb:41 | the run is non-empty exactly when the text it scans starts with a digit; `to_i` scans the text after leading whitespace, one optional sign and an optional `0d`/`0D` (`DigitsStart`), so `"0dx"` reads no digits |
| RubyText.DigitRunOfDigits | scripts/preview_email.rb:41 | plain digits followed by something that is neither a digit nor `_` are read whole |
| RubyText.DigitRunUnderscore | scripts/preview_email.rb:41 | a single `_` between digits is skipped: the digits on both sides are read as one number |
| RubyText.DigitRunStopsAtUnderscore | scripts/preview_email.rb:41 | a `_` that is not followed by a digit ends the number |
| RubyText.ToIReads | scripts/preview_email.rb:41 | the value is the digit run after leading whitespace, one optional sign and an optional `0d`/`0D`, negated exactly when that sign is `-`; with no digit there, the value is 0 |
| RubyText.NegativeShowNat | scripts/preview_email.rb:41 | `-` followed by a printed number reads as that number negated |
| RubyText.ToIOfLeadingDigit | scripts/preview_email.rb:41 | text starting with a digit, without a `0d` prefix, reads as the value of its leading digit run |
| RubyText.ToIShowNat | scripts/preview_email.rb:41 | `to_i` of a printed number followed by anything that cannot continue it is that number |
| RubyText.ToIRadixPrefix | scripts/preview_email.rb:41 | `to_i` reads `0d<n>` and `0D<n>` as n |
| RubyText.LeadingLetterReadsZero | scripts/preview_email.rb:41 | text starting with a character that is not whitespace, a digit or a sign reads as 0, whatever follows (`"x5"`, `"q1"`) |
| RubyText.SignWithoutDigitsReadsZero | scripts/preview_email.rb:41 | a sign not followed by a digit reads as 0 (`"-"`, `"+x"`) |
| RubyText.RadixPrefixWithoutDigitsReadsZero | scripts/preview_email.rb:41 | `0d`/`0D` not followed by a digit reads as 0 (`"0d"`, `"0dx"`) |
| RubyText.UnderscoreReadings | scripts/preview_email.rb:41 | `"1_0"` reads as 10, while `"1__0"` and `"1_"` read as 1, for any digits in place of 1 and 0 |
| Naming.StripTrailingSlashes | scripts/preview_email.rb:109 | `File.basename` ignores trailing slashes: what remains is a prefix that does not end in `/`, and only slashes were removed |
| Naming.AfterLastSlash | scripts/preview_email.rb:109 | the last component is a slash-free suffix that starts at the beginning of the text or just after a `/` |
| Naming.Basename | scripts/preview_email.rb:27 | `File.basename` of `""` is `""`; the result is `/` exactly when the path is made only of slashes, and otherwise has no slash |
| Naming.BasenameIgnoresTrailingSlash | scripts/preview_email.rb:27 | a trailing slash does not change the base name of a non-empty path |
| Naming.BasenameWithout | scripts/preview_email.rb:109 | the suffix is removed exactly when the base name ends with it and is longer than it; otherwise the base name is kept whole |
| Naming.DisplayName | scripts/preview_email.rb:27 | the display name is the base name, with `.html.md` removed or kept whole; unless the path is made only of slashes, it has no slash, so it is a single segment of the web address |
| Naming.WebUrl | scripts/preview_email.rb:110 | reading the name back out of the web address gives the display name |
| Naming.UrlSlug | scripts/preview_email.rb:110 | a recognised web address is the site base, the name and `/` |
| Naming.BasenameOfFile | scripts/preview_email.rb:27 | the base name of `<dir>/<name>` is `<name>` |
| Naming.DisplayNameOfNewsletter | scripts/preview_email.rb:108-110 | `<dir>/<name>.html.md` is listed as `<name>`, and its web address is the site base, `<name>` and `/` |
| Naming.SuffixAloneIsKept | scripts/preview_email.rb:27 | a file named exactly `.html.md` keeps its whole name |
| Naming.WebUrlExample | scripts/preview_email.rb:108-110 | `source/the-becoming/becoming-as-praxis.html.md` maps to `https://andreamignolo.com/the-becoming/becoming-as-praxis/` |
| Naming.WebUrlInjective | scripts/preview_email.rb:110 | two files share a web address only when they share a display name |
| Menu.Decide | scripts/preview_email.rb:13-52 | with an argument, the menu is skipped and the file is `ARGV[0]`; with no files, the result is the no-files exit whatever is typed; `q`/`Q` cancels; a selection is `files[n-1]` for `n = to_i(choice)` with `1 <= n <= files.length`; a rejected number lies outside that range |
| Menu.PickNumber | scripts/preview_email.rb:41-47 | a number n selects `files[n-1]` exactly when `1 <= n <= files.length`; any other n is rejected and keeps n |
| Menu.DecideNumber | scripts/preview_email.rb:32-47 | a typed line that is not `q`/`Q` and reads as a listed number n selects `files[n-1]` |
| Menu.ExitStatus | scripts/preview_email.rb:19-45 | the script stops exactly when no file is chosen; status 0 only for cancelling, 1 otherwise |
| Menu.MenuLineReadsBack | scripts/preview_email.rb:25-47 | the menu line printed for entry i reads as i + 1, and typing or pasting that whole line back selects `files[i]` |
| Menu.ChompNumber | scripts/preview_email.rb:32 | a typed number keeps its digits through `chomp` |
| Menu.ChoosingListedEntry | scripts/preview_email.rb:28-47 | typing the number printed beside entry i, with or without a line ending, selects `files[i]` |
| Menu.NegativeNumberRejected | scripts/preview_email.rb:41-45 | a line that reads as a negative number is rejected with that number and exit status 1 |
| Menu.MinusOneRejected | scripts/preview_email.rb:32-45 | typing `-1` is rejected as -1 |
| Menu.NonNumericNeverSelects | scripts/preview_email.rb:32-45 | a line whose chomped text has no leading integer (`x5`, `q1`, `-`) never selects a file: it cancels or is rejected as 0 |
| Preview.Prepare | scripts/preview_email.rb:54-71 | the script stops with status 0 only when cancelled and with 1 on every other stop; it goes on exactly when a file is chosen, exists and its text splits; the prepared file is the chosen one (`ARGV[0]` or a listed file), its header, terminator and body are the split of its text, and its web address is the one of line 110 |
| Preview.NoFrontmatterExits | scripts/preview_email.rb:65-70 | a chosen file whose text does not match the pattern exits with status 1 |
| Preview.PreviewOfListedNewsletter | scripts/preview_email.rb:13-110 | choosing a listed newsletter written as `---`, header, `---`, body, with a well-formed header and a body satisfying `KeepsBody`, yields that header and body and its web address |

## Left out

- YAML parsing of the header (line 66) and the title/issue/date lookups (lines 74-81). The header is kept as text. A header that YAML rejects, or that loads as something other than a mapping, is not modelled.
- Markdown rendering (lines 86-105), SCSS compilation (lines 115-126), ERB templating (lines 131-142), CSS inlining and its warnings (lines 147-162). These are foreign libraries whose behaviour is not visible here.
- Console output (`puts`, `print`): the menu's text is modelled as lines, printing it is not; writing the preview file (lines 169-173), the directory listing and its sort (line 17), and reading the typed line (line 32). These are I/O. The sorted listing and the line read are parameters.
- `File.exist?` and `File.read` (lines 55-61) are a map from path to content. A directory exists but cannot be read, and that also ends with status 1, so it is treated like a missing path. Read errors and invalid text encodings (which make the regular expression raise) are not modelled. Text is a sequence of characters.
- `File.basename` is modelled for Unix paths: `/` is the only separator and suffix comparison is case-sensitive. Windows drive letters and backslashes are not modelled.
- Menu.IsQuit: compares the chomped line with `q` and `Q` instead of modelling Unicode `downcase`, because no other string lower-cases to `q`. The typed line is a sequence of characters: a line that is not valid in the input encoding makes `downcase` (line 35) raise, and the script exits with status 1, where `Decide` may select a file.
- The error messages' wording and the uncaught-exception report when `gets` returns nil. Only the exit status (1) is modelled, as `NoInput`.
