# Review-stats bot: dashboard extraction and GitHub URL parsing

A Dafny model of the two text-processing cores of the review-stats bot.

- `main.py`: the bot answers a chat command with two figures, "Hours pending review" and "Hours approved in past 7 days". It reads them off the visible text of a rendered dashboard:
  - `parse_data` splits the text on newlines and scans the lines in order.
  - When a stripped line equals one of the two labels, it parses the line two further down as an integer. A missing line or a non-integer leaves the field as it was.
  - The scan stops as soon as both fields are set.
  - `process_request` turns the result into the reply: the two figures, or a fixed failure sentence. It sends that reply as one ephemeral message to the requesting user in their channel.
- `moss.py`: `parse_github_url` matches a repository URL against one regular expression, anchored at the start only. It returns owner, repo, branch (default `main`) and path (default empty, leading slashes removed). It raises `ValueError("Invalid GitHub URL")` when the pattern does not match.

Files:

- `pystr.dfy` (module `PyStr`): the Python string built-ins the cores rely on.
  - `str.strip()`, with Python's `str.isspace` character set.
  - `str.split('\n')` and its inverse `"\n".join`.
  - `int()` of a stripped string, and `str()` of an integer.
- `dashboard.dfy` (module `Dashboard`):
  - `parse_data` as the method `ParseData`, with its loop proved against a specification function `Extract`. `Extract` is defined through `Latest`, the value a field holds after a number of lines, and `StopFrom`, the point where the scan stops.
  - The reply text `Reply` and the send decision `ProcessRequest`, as functions.
- `github_url.dfy` (module `GitHubUrl`): `parse_github_url` as functions over strings. Each `[\w.-]+` group is the maximal run of name characters. This is exact here: every such group is followed either by `/` or by optional groups that begin with `/`, and `/` is never a name character, so no `[\w.-]+` group ever has to give characters back. The optional tree group can still be entered and abandoned (as on `.../o/r/tree/?x`); the model then reads the rest as the path.

`process_request` sends nothing when rendering raises (main.py:70, main.py:84-85): the exception is caught and only logged, so `ProcessRequest` returns no message for a failed render.

## Model

| member | source | states |
|---|---|---|
| PyStr.StripSpec | main.py:34 | `line.strip()` neither starts nor ends with whitespace, and the line is some whitespace, then the stripped text, then some whitespace |
| PyStr.Strip | main.py:34 | `str.strip()`; what it returns is pinned down by `StripSpec`: a middle part of the line with only whitespace around it and none at its ends |
| PyStr.IsSpace | main.py:34 | the characters `str.isspace()` accepts, which `str.strip()` removes: the ASCII controls 9-13 and 28-31, space, and the Unicode spaces and separators |
| PyStr.StripTrimmed | main.py:34 | a string with no whitespace at either end is returned by `strip()` unchanged |
| PyStr.Split | main.py:29 | `text.split('\n')` has at least one piece, no piece contains a newline, and joining the pieces with newlines gives the text back |
| PyStr.SplitJoin | main.py:29 | splitting newline-free lines joined by newlines gives exactly those lines back |
| PyStr.Join | main.py:29 | `"\n".join`, the inverse of the split: `Split` and `SplitJoin` state the round trip both ways |
| PyStr.ParseInt | main.py:36 | `int()` succeeds exactly on an optional sign followed by one or more decimal digits; a minus sign gives a non-positive value, no sign or a plus sign a non-negative one; `ParseIntValue` and `ParseIntForm` give its value on every string it accepts |
| PyStr.ParseSigned | main.py:36 | an optional sign followed by digits parses to the digits' decimal value, negated exactly when the sign is `-` |
| PyStr.LeadingZeros | main.py:36 | leading zeros do not change the value `int()` reads |
| PyStr.ParseIntValue | main.py:36 | `int()` of a sign (none, `+` or `-`), any run of zeros and `str(n)` is `n`, negated after `-` |
| PyStr.CanonicalDigits | main.py:36 | digits that do not start with `0` are exactly `str()` of their value |
| PyStr.CanonicalSplit | main.py:36 | every non-empty digit string is a run of zeros followed by `str(n)` for some `n` |
| PyStr.ParseIntForm | main.py:36 | every string `int()` accepts is a sign, a run of zeros and `str(n)`, and parses to `n` with the sign applied |
| PyStr.IsIntLiteral | main.py:36 | the strings `int()` accepts after stripping: an optional sign, then one or more ASCII digits |
| PyStr.DigitsValue | main.py:36 | the decimal value of a digit string, most significant digit first; `ShowNat` and `ParseShowInt` tie it to `str()` |
| PyStr.ShowNat | main.py:80 | `str(n)` of a natural number is a non-empty string of digits whose decimal value is `n`, with no leading zero, and `str(0)` is exactly `"0"` |
| PyStr.ShowInt | main.py:80 | `str(n)` is non-empty, holds no newline, starts with `-` exactly when `n` is negative, and is the canonical decimal text `ShowNat` of `n`, or `-` followed by that of `-n` |
| PyStr.ParseShowInt | main.py:36 | `int(str(n)) == n` for every integer, negative ones included |
| PyStr.ReadBackInt | main.py:41 | `int(str(n).strip()) == n` |
| PyStr.SplitTwoLines | main.py:80 | two newline-free lines joined by a newline split back into exactly those two lines |
| Dashboard.ValueAt | main.py:36-38 | `int(lines[j].strip())` with both exceptions absorbed; `ValueAtIff` states when it yields a value |
| Dashboard.ValueAtIff | main.py:36-38 | a value is read exactly when the line exists (no `IndexError`) and strips to an integer (no `ValueError`) |
| Dashboard.Reading | main.py:34-41 | what line `i` yields for a label; `ReadingIff` states when it yields a value |
| Dashboard.ReadingIff | main.py:34-41 | a line yields a value exactly when it strips to the label and the line two below exists and strips to an integer |
| Dashboard.Latest | main.py:30-43 | a field's value after `n` lines; `LatestNoneIff` and `LatestIsLastReading` state what it holds |
| Dashboard.StopFrom | main.py:45-46 | the number of lines scanned, from a given point on, lies between that point and the end; `StopFromSpec` pins it down |
| Dashboard.StopStep | main.py:45-46 | past a line where the scan does not stop, the stop point is unchanged; once both fields are set after the next line, the scan stops there |
| Dashboard.Found | main.py:45 | both fields are set after a given number of lines: the loop's exit test |
| Dashboard.Consumed | main.py:33-46 | the number of lines `parse_data` scans before returning, at most all of them |
| Dashboard.ExtractLines | main.py:30-48 | the pair `parse_data` returns for given lines: each field as it stood when the scan stopped; `ParseData` is proved equal to it |
| Dashboard.Extract | main.py:28-48 | `ExtractLines` of the text split on newlines: the independent specification of `parse_data` |
| Dashboard.ScanStep | main.py:33-43 | a pending label can change only the pending field, an approved label only the approved field, and any other line neither; a failed read keeps the old value |
| Dashboard.ParseData | main.py:28-48 | the loop returns exactly `Extract(text)`: each field as it stood when both fields first became set, or at the end of the lines |
| Dashboard.StopFromSpec | main.py:45-46 | the scan stops at the first point where both fields are set, and at the end of the lines when that never happens |
| Dashboard.LatestNoneIff | main.py:35-43 | a field is unset exactly when no earlier label line yielded an integer; a failed parse never clears a field |
| Dashboard.LatestIsLastReading | main.py:36 | a field holds the reading of the last label line that yielded an integer: a later successful label overwrites an earlier value |
| Dashboard.LatestOwnReadings | main.py:33-43 | the fields are independent: a field's value depends only on its own label's readings |
| Dashboard.CompletedEarly | main.py:45-46 | when the scan stops because both fields are set, at least two more lines follow the stop point |
| Dashboard.EarlyExit | main.py:45-46 | once both fields are set, lines appended to the input cannot change the result |
| Dashboard.PrefixLatest | main.py:33-43 | lines appended after a point two lines past `s` change neither field's value, nor whether both are set, at any point up to `s` |
| Dashboard.FoundWhenStopped | main.py:45-46 | once both fields are set at some point, the scan stops no later, with both fields set |
| Dashboard.BothLabelsRead | main.py:28-48 | a pending reading anywhere and an approved reading anywhere, in either order and with any other lines around them, give both fields set |
| Dashboard.NeverRead | main.py:33-46 | a label that yields no reading anywhere leaves its field unset at every point, and the scan runs to the end |
| Dashboard.PendingMissing | main.py:28-48 | with no pending reading anywhere, the result is `None` and the last approved reading |
| Dashboard.ApprovedMissing | main.py:28-48 | with no approved reading anywhere, the result is the last pending reading and `None` |
| Dashboard.OnlyReading | main.py:33-43 | a field with a single reading in the lines holds that reading wherever it is set |
| Dashboard.SingleReadings | main.py:28-48 | when each label yields exactly one reading, anywhere in the lines, the result is those two readings |
| Dashboard.LabelsOnce | main.py:28-48 | each label appearing once, anywhere, with a number two lines below it: the result is those two numbers, whatever the other lines hold |
| Dashboard.ReadsAnyInteger | main.py:34-36 | a line that strips to the label, with the decimal text of any integer two lines below, yields that integer; the code has no range check of its own |
| Dashboard.LabelFacts | main.py:34-39 | the two labels have no surrounding whitespace, differ from each other, and are not integers |
| Dashboard.NoReadingInThree | main.py:35-38 | in three lines whose last one is not an integer, the label yields nothing, whatever the other lines hold |
| Dashboard.LayoutReadings | main.py:33-43 | in the dashboard layout each label line yields its own number and each of the other four lines yields nothing for either label, whatever the skipped lines hold |
| Dashboard.LayoutLatest | main.py:33-46 | in the dashboard layout both fields are set after the fourth line, and the approved field is unset before it |
| Dashboard.LayoutStop | main.py:45-46 | in the dashboard layout the scan stops after the fourth line |
| Dashboard.LayoutExtract | main.py:28-48 | for the layout label, any line, number, label, any line, number, `parse_data` returns both numbers exactly |
| Dashboard.ExampleBothFields | main.py:28-48 | `["Hours pending review","","7","Hours approved in past 7 days","","42"]` joined by newlines gives `(7, 42)` |
| Dashboard.ExampleNotANumber | main.py:35-38 | `["Hours pending review","","not-a-number"]` joined by newlines gives `(None, None)`, without raising |
| Dashboard.LabelAtEnd | main.py:34-43 | for either label: when it appears only on the last two lines, its field is `None`; the `IndexError` is absorbed |
| Dashboard.Reply | main.py:77-80 | the reply is the failure sentence exactly when either field is `None` |
| Dashboard.ExampleReply | main.py:80 | the fields 7 and 42 give the reply `Hours pending review: 7`, a newline, `Hours approved in past 7 days: 42` |
| Dashboard.ReplyLines | main.py:80 | the success reply is two lines, `Hours pending review: P` and `Hours approved in past 7 days: A`, and each number reads back from its line |
| Dashboard.PrefixedNumber | main.py:80 | a newline-free prefix followed by a number is one line, and the number reads back from the text after the prefix |
| Dashboard.ProcessRequest | main.py:66-85 | a render failure sends nothing; a rendered page sends exactly one message, addressed to the requesting user and channel |
| Dashboard.RequestReply | main.py:75-83 | for a rendered page, the one message is the failure sentence exactly when a field is missing, and otherwise carries both numbers, one per line |
| Dashboard.LayoutRequest | main.py:66-85 | a dashboard in the expected layout produces exactly one message, reporting both numbers |
| GitHubUrl.NameRun | moss.py:19 | `[\w.-]+` takes the longest run of name characters: all of them are name characters, and the next character, if any, is not one |
| GitHubUrl.IsWordChar | moss.py:19 | `\w`, as ASCII letters, digits and `_` |
| GitHubUrl.IsNameChar | moss.py:19 | the class `[\w.-]`: a word character, `.` or `-` |
| GitHubUrl.IsName | moss.py:19 | what `[\w.-]+` matches in full: one or more name characters |
| GitHubUrl.NameRunOf | moss.py:19 | the greedy run over a name followed by a non-name character is exactly that name |
| GitHubUrl.LineRun | moss.py:19 | `.*` takes the text up to the first newline, or to the end when there is none |
| GitHubUrl.LineRunOf | moss.py:19 | `.*` over a newline-free line followed by a newline or nothing takes exactly that line |
| GitHubUrl.LStripSlashes | moss.py:28 | `lstrip('/')` removes only slashes, and all of the leading ones, and returns a suffix of its input |
| GitHubUrl.AfterHost | moss.py:19 | `https?://github\.com/` matches exactly when the URL begins with `https://github.com/` or `http://github.com/` |
| GitHubUrl.AfterHostOf | moss.py:19 | either scheme and the host, followed by any text, leave exactly that text |
| GitHubUrl.HostSplit | moss.py:19 | a URL with a recognised host is one of the two scheme-and-host prefixes followed by the text after it |
| GitHubUrl.OrElse | moss.py:26-27 | `group or default` gives the group when it took part in the match and the default otherwise |
| GitHubUrl.TreeGroup | moss.py:19 | the optional `/tree/<branch>` group, when present, is `/tree/` followed by a name, and the text after it does not continue the name |
| GitHubUrl.TreeGroupOf | moss.py:19 | `/tree/`, a name and text that does not continue the name are taken as the tree group, with that name as the branch |
| GitHubUrl.NoTreeGroup | moss.py:19 | a slash and a path that does not begin with `tree/` and a name character is not taken as the tree group |
| GitHubUrl.PathGroup | moss.py:19 | the optional path group is present exactly when the text starts with `/`, and is then that text up to its first newline |
| GitHubUrl.PathLine | moss.py:19-28 | `/path` followed by a newline or nothing is the path group, and `lstrip('/')` gives `path` back |
| GitHubUrl.OwnerRepo | moss.py:19 | owner and repo are names, and the text is owner, `/`, repo, then a rest that does not continue the repo name |
| GitHubUrl.OwnerRepoOf | moss.py:19 | a name, `/`, a name and text that does not continue it give exactly those owner, repo and rest |
| GitHubUrl.ParseGitHubUrl | moss.py:17-30 | a failure is always `Invalid GitHub URL`; on success owner, repo and branch are names without `/`, and the path neither starts with `/` nor holds a newline |
| GitHubUrl.ParseParts | moss.py:17-30 | scheme, host, owner, `/`, repo and any text that does not continue the repo name parse into that owner and repo and the fields that text gives |
| GitHubUrl.TailFieldsShape | moss.py:26-28 | the branch after defaulting is a name, and the path after defaulting and `lstrip` does not start with `/` |
| GitHubUrl.TailFields | moss.py:26-28 | the branch and the path that the text after the repo gives; `TailFieldsShape` states their shape, and `TailBare`, `TailTree` and `TailNoTree` state their values |
| GitHubUrl.TailBare | moss.py:26-28 | text after the repo that starts with neither a name character nor `/` gives `main` and an empty path |
| GitHubUrl.TailTree | moss.py:19-28 | `/tree/<branch>/<path>` after the repo gives that branch and path |
| GitHubUrl.TailNoTree | moss.py:19-28 | `/<path>` after the repo, with no tree segment, gives `main` and that path |
| GitHubUrl.AcceptedParses | moss.py:19-22 | every URL that begins with `http://` or `https://`, `github.com/`, a name, `/` and a name is parsed, whatever follows |
| GitHubUrl.ParsedAccepted | moss.py:19-25 | every parsed URL begins with the scheme and host, then the reported owner, `/` and the reported repo |
| GitHubUrl.Accepted | moss.py:19-20 | the URLs `re.match` accepts, written without the scan: a scheme, the host, a name, `/` and a name, then anything; `ParseFailsIffNotAccepted` ties it to the parser |
| GitHubUrl.ParseFailsIffNotAccepted | moss.py:19-22 | `ValueError` is raised exactly on the URLs that do not begin that way |
| GitHubUrl.RoundTripBare | moss.py:19-30 | `scheme + o + "/" + r`, alone or followed by text that starts with neither a name character nor `/` (such as `?x` or `#y`), gives `(o, r, "main", "")` |
| GitHubUrl.RoundTripTree | moss.py:19-30 | `scheme + o + "/" + r + "/tree/" + b + "/" + p` gives `(o, r, b, p)` for names o, r, b and a path p with no leading `/` and no newline, whatever follows the path's line |
| GitHubUrl.PathWithoutTree | moss.py:19-28 | a path right after the repo that does not begin with a tree segment is returned with the default branch `main` |
| GitHubUrl.ExampleDotGit | moss.py:24-25 | `https://github.com/o/r.git` gives repo `r.git`: the suffix stays part of the name |
| GitHubUrl.ExampleDocs | moss.py:26-28 | `https://github.com/o/r/docs` gives `("o", "r", "main", "docs")` |
| GitHubUrl.ExampleOtherHost | moss.py:20-22 | `https://gitlab.com/o/r` is rejected with `Invalid GitHub URL` |

## Left out

- `get_rendered_content` (main.py:12-24): the headless browser, page navigation, waits and timeouts. A render is an abstract outcome, `Rendered(text)` or `RenderFailed`.
- `send_slack_message` (main.py:50-64): the HTTP POST, the token and the status code. A send is a `Message(user, channel, text)` value in the list `ProcessRequest` returns.
- Dashboard.ProcessRequest: assumes an exception can only come from rendering. An exception raised while sending is not modelled; the message counts as attempted.
- `get_hours` (main.py:87-106) and the Flask application: routing, the acknowledgement payload, and the fire-and-forget thread.
- The diagnostic `print` calls in `parse_data` and `process_request`: assumed not to raise. A `print` that raises (an encoding error on the console, a broken pipe) escapes `parse_data` from main.py:38 or main.py:43. At main.py:72-73 it is caught at main.py:84 and the message is not sent.
- `download_github_folder`, `add_files_to_moss` and `compare_repos` (moss.py:32 onwards): GitHub REST calls, temporary files, and the external MOSS service.
- PyStr.ParseInt: models `int()` as an optional sign followed by ASCII digits. Python also accepts `_` between digits and non-ASCII decimal digits; the model rejects those.
- PyStr.ParseInt: CPython's limit on the digits `int()` converts is not modelled. Since Python 3.11 the default is 4300 digits, and a longer string raises `ValueError`. The model parses digit strings of any length, so at main.py:36 and main.py:41 it sets a field where Python leaves it unset.
- Dashboard.ReadsAnyInteger: holds without CPython's 4300-digit limit on `int()`. For an integer whose decimal text is longer than that, Python leaves the field unset.
- GitHubUrl.IsWordChar: models `\w` as ASCII letters, digits and `_`. Python's `\w` on `str` also matches other Unicode letters and digits.
