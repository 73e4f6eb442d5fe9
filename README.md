# A verified model of the first browser's URL parsing and text display

The program is the first stage of a toy web browser. A `URL` object is
built from a string such as `https://example.org:8443/index.html`, which
splits it into scheme, host, path and port. Once the page has been
fetched, `show` prints its body with the markup removed. The network
request and the glue that chains request and display are not modelled.

The model has three modules:

- `PyStr` (`pystr.dfy`) holds the Python string operations that URL
  construction relies on. These are `pat in s`, `s.split(sep, 1)` and
  `int(s)`, written as functions on `string` with lemmas about first
  occurrences.
- `UrlParsing` (`url.dfy`) has two parts:
  - `ParseUrl`, a specification of construction as a function from text
    to `Result<UrlParts>`;
  - the class `Url`, with the four fields of the Python object.
    `Url.New` allocates the object and then assigns and overwrites its
    fields in the source's order: the host is cut again when it holds a
    ":", and the default port is replaced by the explicit one. It is
    proved to agree with `ParseUrl`.
  The lemmas state what construction guarantees: when it fails, the shape
  of the path, host and port, and the reassembly of the input. A
  canonical printer `Format` is proved to be a right inverse of parsing.
- `Display` (`show.dfy`) covers `show`:
  - `Show` is a method with the source's loop and `in_tag` flag. It
    returns what the source prints.
  - It is proved equal to `Visible`, a recursive function on the last
    character read.
  - `Visible` is related to a separate, declarative description: a
    position is printed when it holds no bracket and no "<" before it
    is still open.

Construction raises in three ways. Each becomes an `Err` of `UrlError`:

- `MissingSchemeSeparator`: the unpacking of `split("://", 1)` fails
  when the text has no "://".
- `UnsupportedScheme`: the `assert` on the scheme fails.
- `InvalidPort`: `int` rejects the port text.

## Model

| member | source | states |
|---|---|---|
| PyStr.FindFirst | src/browser_engineering/browser.py:13 | `Find` yields the first index where the pattern occurs, and nothing exactly when it occurs nowhere; this is what `pat in s` tests |
| PyStr.Contains | src/browser_engineering/browser.py:13 | `pat in s` holds exactly when the pattern occurs at some index of `s` (the same test at line 25) |
| PyStr.SplitOnce | src/browser_engineering/browser.py:9 | `split(sep, 1)` gives one piece equal to the input, or two pieces that rebuild the input around one separator |
| PyStr.SplitOnceFirst | src/browser_engineering/browser.py:9 | there are two pieces exactly when the separator occurs, and the cut is at its first occurrence |
| PyStr.SplitOnceChar | src/browser_engineering/browser.py:15 | for a one-character separator: two pieces exactly when the character occurs, and the first piece does not contain it |
| PyStr.SplitOnceAt | src/browser_engineering/browser.py:9 | a split is at whichever index holds the first occurrence |
| PyStr.SplitOnceCharAt | src/browser_engineering/browser.py:15 | a split at one character is at the first index holding it |
| PyStr.ParseInt | src/browser_engineering/browser.py:27 | `int(port)` has a value exactly when the text is a non-empty run of decimal digits |
| PyStr.DecimalRoundTrip | src/browser_engineering/browser.py:27 | `int` of a number's decimal spelling gives back that number |
| UrlParsing.SupportedScheme | src/browser_engineering/browser.py:10 | the schemes the `assert` admits, http and https, hold no ":" or "/", so the first "://" follows the scheme |
| UrlParsing.ParseUrl | src/browser_engineering/browser.py:7-27 | what construction yields: every URL it accepts has a supported scheme, a host without "/" or ":" and a path starting with "/", and the input starts with its scheme and "://" |
| UrlParsing.ParseAuthority | src/browser_engineering/browser.py:13-27 | once the scheme is accepted: the result keeps the scheme, takes the path after the authority, is well formed, and the only failure left is `InvalidPort` |
| UrlParsing.DefaultPort | src/browser_engineering/browser.py:19-22 | the default port is 80 for http and 443 for https |
| UrlParsing.Authority | src/browser_engineering/browser.py:13-15 | the text before the first "/" holds no "/", is a prefix of the input, and ends at its end or at its first "/" |
| UrlParsing.PathOf | src/browser_engineering/browser.py:13-16 | the path starts with "/", is "/" when the input has no "/", and follows the authority to rebuild the input, with "/" appended when it had none |
| UrlParsing.ParseErrors | src/browser_engineering/browser.py:9-27 | construction fails with no "://" exactly when the text has none; with an unsupported scheme exactly when the text before the first "://" is not http or https; and with `InvalidPort` exactly when the authority has a ":" followed by non-digits |
| UrlParsing.ParsedPath | src/browser_engineering/browser.py:13-16 | the path starts with "/"; it is exactly "/" when there is no "/" after "://", and otherwise it is what follows the authority |
| UrlParsing.ParsedHost | src/browser_engineering/browser.py:15-26 | the host holds neither "/" nor ":"; it is the authority, or the authority's text before its first ":" |
| UrlParsing.ParsedPort | src/browser_engineering/browser.py:19-27 | without ":" the port is 80 for http and 443 for https; with one it is the `int` of the text after the first ":" |
| UrlParsing.ParseRoundTrip | src/browser_engineering/browser.py:9-27 | scheme, "://", authority and path rebuild the input, with "/" appended exactly when there was no "/" after "://"; the authority is the host, or host, ":" and a text whose `int` is the port |
| UrlParsing.FormatRoundTrip | src/browser_engineering/browser.py:7-27 | every well-formed URL is what construction makes of its canonical text, so no well-formed URL is unreachable |
| UrlParsing.SchemeSplit | src/browser_engineering/browser.py:9-10 | a supported scheme holds no ":", so the first "://" is the one right after it |
| UrlParsing.AuthoritySplit | src/browser_engineering/browser.py:13-16 | when the authority has no "/", the first "/" of authority plus path starts the path |
| UrlParsing.HostPortSplit | src/browser_engineering/browser.py:25-26 | when the host has no ":", the first ":" of host, ":" and port separates them |
| UrlParsing.HostPathSplit | src/browser_engineering/browser.py:13-16 | appending a missing "/" and splitting at the first "/" gives the authority and the path without its leading "/" |
| UrlParsing.Url.New | src/browser_engineering/browser.py:7-27 | the step-by-step construction, with fields overwritten in place, fails with the error `ParseUrl` gives, or returns a fresh object whose fields are `ParseUrl`'s parts |
| Display.InTagAfter | src/browser_engineering/browser.py:78-83 | the `in_tag` flag is up only after a "<" has been read; in a body without ">" it is up exactly when a "<" was read |
| Display.Visible | src/browser_engineering/browser.py:77-85 | what is printed is never longer than the body |
| Display.Show | src/browser_engineering/browser.py:77-85 | the loop with the `in_tag` flag prints exactly `Visible(body)` |
| Display.InTagIffEnclosed | src/browser_engineering/browser.py:78-83 | the flag is up before position k exactly when some "<" before k has no ">" between it and k |
| Display.KeptPositions | src/browser_engineering/browser.py:77-85 | the positions that should be shown, increasing: each holds no bracket and lies outside markup, and every such position is listed |
| Display.VisibleIsKept | src/browser_engineering/browser.py:77-85 | after any prefix, what has been printed is exactly the characters at the kept positions of that prefix, in order |
| Display.ShowPrintsUnenclosed | src/browser_engineering/browser.py:77-85 | `show` prints exactly the characters outside markup, in order: a subsequence of the body |
| Display.VisibleHasNoBrackets | src/browser_engineering/browser.py:80-83 | neither "<" nor ">" is ever printed |
| Display.NoMarkupUnchanged | src/browser_engineering/browser.py:84-85 | a body with no "<" or ">" is printed unchanged and leaves the flag down |
| Display.VisibleIdempotent | src/browser_engineering/browser.py:77-85 | displaying the printed text again changes nothing |
| Display.StrayCloseResets | src/browser_engineering/browser.py:82-83 | a ">" is dropped and lowers the flag even without a "<" before it; the body after it is displayed as if from the start |
| Display.UnterminatedSuppresses | src/browser_engineering/browser.py:80-81 | a "<" with no ">" after it hides everything to the end and leaves the flag up |

## Left out

- `URL.request` (`browser.py:29-74`) is not part of this model. It is socket and TLS I/O plus parsing of the HTTP response.
- `load` (`browser.py:88-90`) is not part of this model. It is glue that calls `request` and then `show`.
- `__init__.py` is not part of this model. It is the command line entry point and a tkinter window.
- Printing in `show` is modelled as appending to the returned string. The interleaving with other output on the terminal is not modelled.
- PyStr.ParseInt: accepts only non-empty runs of ASCII digits, which is narrower than Python's `int`. `int` also takes surrounding whitespace, a sign, `_` between digits and non-ASCII decimal digits. A port text such as "+80", " 80" or "-1" therefore gives `InvalidPort` here, while the source accepts it.
- UrlParsing.Url.New: is a static factory returning `Result<Url>`, because a Dafny constructor cannot fail. The object is still allocated first and its fields filled in step by step. When the source raises, the half-built object is discarded, and here no object is returned.
- UrlParsing.Url.New: treats the scheme check as always active. Python drops `assert` statements under `-O`; the scheme check then disappears and an unsupported scheme leaves `port` unset.
- `Format`, `PortText`, `WellFormed` and `PyStr.DecimalString` have no counterpart in the source, which never writes a number as text. They exist only to state that parsing reaches every well-formed URL.
- PyStr.SplitOnce: requires a non-empty separator. Python's `split` raises `ValueError` for an empty one, and every call in the source passes a non-empty literal.
