# ContactsFinder contact extraction, modelled in Dafny

ContactsFinder is a small desktop tool. It fetches one web page, parses it into
HTML elements, and scans the serialised text of every element for email
addresses and Russian phone numbers (`+7…`). It shows what it found in a text
widget and reports progress on a progress bar. This project models the
extraction routine `__get_contacts`, its two regular expressions, and the
window placement arithmetic `__set_geometry`. It then proves what the code
promises about them.

Modules:

- `Scan` (scan.dfy) holds the two patterns as hand-written backtracking
  matchers with Python `re` semantics: greedy quantifiers that give characters
  back. It also holds `re.findall` over them: leftmost matches, each search
  resuming where the last match ended. Each matcher is proved to return the
  longest span the pattern describes at that position. The matches `findall`
  reports are proved to come in order without overlap, each the pattern's
  match at its start, and the scan is proved to skip no span. So every
  email or phone not run together with neighbouring characters is found.
- `Contacts` (contacts.dfy) holds the phone normalisation
  `.replace('-', '').replace(' ', '')`, the length filter, what one node
  contributes to each set, and the union of those contributions over the nodes.
- `Finder` (finder.dfy) holds the class `ContactsFinder`. Its fields are the
  text widget, kept as the list of chunks inserted into it, and the progress
  bar's value and maximum. A ghost field records every value the progress bar
  was given. `GetContacts` is the routine itself. It takes a `Fetch` outcome in
  place of the network request and the HTML parse: either the nodes' `str()`
  strings, `InvalidUrl`, another failure before the nodes were counted, or
  another failure after some nodes were processed.
- `Geometry` (geometry.dfy) holds `__set_geometry`, with the screen width and
  height as parameters, and the `"WxH+X+Y"` string it returns.

Where the code does something other than a reader might expect, the model
follows the code:

- One might expect every kind of whitespace to be stripped from a phone
  match. The code removes only `'-'` and `' '`. A tab, a newline or a no-break
  space that `\s` let into the match stays in it (`Contacts.Normalize`,
  `Contacts.KeptPhoneShape`). The greedy `[\d\s\-]+` takes a newline right
  after a number into its match (`Scan.MatchPhoneAt`, whose second ensures
  is the general fact). As an illustration, a string holding only
  `+7 912 345 67 89` and a newline normalises to 13 characters, and the length
  filter drops it (`Contacts.LineEndNumberDropped`,
  `Contacts.NewlineEndedPhoneDropped`). A real node is a tag and starts with
  `<`, so this string stands for the number's own part of the node's text.
- One might expect the length filter to count digits. The code's `len()` also
  counts the leading `+` and any whitespace that was left in.
- One might expect the progress counter to be reset when a run starts. The
  code resets it only at the end. The model therefore requires the value to be
  0 when a run starts. The constructor leaves it at 0, and so does every run.
- One might expect no partial results after a failure. The code lists whatever
  was gathered before the fault, below the generic error message. The model
  does the same.

## Model

| member | source | states |
|---|---|---|
| Scan.RunEnd | ContactsFinder.py:25-26 | a greedy `+` over a character class stops exactly at the first character outside the class, or at the end of the string |
| Scan.MatchEmailAt | ContactsFinder.py:25 | the email pattern tried at one position either fails or ends a match after that position and within the string |
| Scan.LocalPart | ContactsFinder.py:25 | backtracking over the local part `[a-zA-Z0-9._-]+@` ends any match it reports within the string |
| Scan.DomainPart | ContactsFinder.py:25 | backtracking over the domain `[a-zA-Z0-9._-]+\.[a-zA-Z0-9_-]+` ends any match it reports within the string |
| Scan.DomainPartFinds | ContactsFinder.py:25 | the domain search picks the last dot followed by a label character, and then the longest label after it |
| Scan.DomainPartCorrect | ContactsFinder.py:25 | the domain search returns the longest domain span and fails exactly when there is none |
| Scan.LocalPartBelowRun | ContactsFinder.py:25 | giving back characters of the local part never produces an `@`, so only the longest local part can match |
| Scan.MatchEmailAtCorrect | ContactsFinder.py:25 | at each position the email matcher returns the longest email the pattern describes there, and fails exactly when none starts there |
| Scan.MatchPhoneAt | ContactsFinder.py:26 | the phone pattern `\+[7]\s?[\d\s\-]+`, with `\s?` giving back its character when needed, either fails or ends a match within the string, and a match never stops before a `[\d\s\-]` character, a newline included |
| Scan.MatchPhoneAtCorrect | ContactsFinder.py:26 | at each position the phone matcher returns the longest `+7` followed by one or more `[\d\s\-]`, and fails exactly when none starts there |
| Scan.MatchAt | ContactsFinder.py:111-112 | a compiled pattern's match at a position ends after it and within the string |
| Scan.MatchAtCorrect | ContactsFinder.py:111-112 | each pattern's matcher returns the longest span of that pattern at the position, or fails when there is none |
| Scan.SpanChars | ContactsFinder.py:25-26 | a span of either pattern is non-empty and holds only characters the pattern can match |
| Scan.SpanExtension | ContactsFinder.py:25-26 | two spans from the same start differ only by characters that can extend the pattern's last element |
| Scan.Spans | ContactsFinder.py:115-116 | the matches `findall` reports come in increasing order, do not overlap, and each is the pattern's match at its own start |
| Scan.UncoveredTail | ContactsFinder.py:115-116 | a position no reported match covers is not covered by the first match nor by the later ones |
| Scan.SpansSkipNothing | ContactsFinder.py:115-116 | no span of the pattern starts at a position that no reported match covers, so the scan skips no match |
| Scan.FindAll | ContactsFinder.py:115-116 | `findall` returns at most one match per remaining character, because matches are non-empty and do not overlap |
| Scan.FindAllSound | ContactsFinder.py:115-116 | every string `findall` returns is a substring of the node that the pattern describes |
| Scan.FindAllEmptyIff | ContactsFinder.py:115-116 | `findall` returns nothing if and only if the pattern describes no substring of the node |
| Scan.BorderedSpanFound | ContactsFinder.py:115-116 | a span that no match could have entered from the left and that cannot be extended on the right is among the strings `findall` returns |
| Scan.EmailSpanIsEmail | ContactsFinder.py:25 | an email span taken out of its node matches the pattern on its own |
| Scan.EmailShape | ContactsFinder.py:25 | an email has exactly one `@` with a non-empty part before it, then a non-empty domain part, then a last dot followed by a non-empty `[a-zA-Z0-9_-]` label |
| Contacts.Remove | ContactsFinder.py:118 | `replace(c, '')` leaves no `c`, keeps every other character that was there, adds none, and never lengthens the string |
| Contacts.RemoveCounts | ContactsFinder.py:118 | every character other than `c` keeps its number of occurrences, and the result is shorter by exactly the number of `c`s |
| Contacts.RemoveAppend | ContactsFinder.py:118 | removing distributes over concatenation, so the kept characters stay in their order |
| Contacts.RemoveAbsent | ContactsFinder.py:118 | a string without `c` is unchanged |
| Contacts.Normalize | ContactsFinder.py:117-120 | a normalised phone has no `'-'` and no `' '` and keeps every other character of the match, including tabs and newlines |
| Contacts.NormalizeCounts | ContactsFinder.py:117-120 | normalising keeps every other character as often as it occurs, so its length is the match's length less its hyphens and plain spaces |
| Contacts.Normalized | ContactsFinder.py:117-120 | the list comprehension gives one entry per match, holding exactly that match's characters other than `'-'` and `' '` |
| Contacts.EmailMatchAt | ContactsFinder.py:115-122 | the text of an email match is an email occurring in the node at the match's start |
| Contacts.EmailMatchIsEmail | ContactsFinder.py:115-122 | every email match of a node is an email and a substring of the node |
| Contacts.EmailMatchesAreEmails | ContactsFinder.py:115-122 | all email matches of a node are emails and substrings of the node |
| Contacts.NodeEmails | ContactsFinder.py:115-122 | the emails one node contributes are emails and substrings of the node |
| Contacts.PhoneMatchShape | ContactsFinder.py:116-120 | a normalised phone match begins with `+7` and holds only digits and whitespace other than `' '` after it |
| Contacts.PhoneMatchesShape | ContactsFinder.py:116-120 | every entry of the normalised list has that shape |
| Contacts.NodePhones | ContactsFinder.py:116-125 | the phones one node contributes are 11 or 12 characters long, begin with `+7`, contain no `'-'` or `' '`, and hold only digits and other whitespace after the `+7` |
| Contacts.NormalizePhone | ContactsFinder.py:117-120 | normalising keeps the leading `+7` and normalises the rest |
| Contacts.NormalizedPhoneShape | ContactsFinder.py:117-120 | a normalised raw phone match is `+7` followed only by digits and whitespace other than `' '` |
| Contacts.KeptPhoneShape | ContactsFinder.py:123-125 | every kept phone is 11 or 12 characters long counting its `+`, begins with `+7`, and then holds only digits and whitespace other than `' '` |
| Contacts.EmailsAreEmails | ContactsFinder.py:121-122 | every email collected is a substring of one of the nodes and matches the email pattern as a whole |
| Contacts.BorderedEmailCollected | ContactsFinder.py:115-122 | an email that starts the node or follows a character outside `[a-zA-Z0-9._@-]`, and ends the node or precedes one outside `[a-zA-Z0-9._-]`, is collected verbatim |
| Contacts.BorderedPhoneCollected | ContactsFinder.py:116-125 | a `+7` number bordered by the node's ends or by characters outside the pattern's classes is collected in normalised form when that form is 11 or 12 characters long |
| Contacts.LineEndNumberMatch | ContactsFinder.py:116 | a node that is `+7 DDD DDD DD DD` and a newline is one phone match, newline included |
| Contacts.LineEndNumberLength | ContactsFinder.py:117-120 | that match normalises to 13 characters: the four spaces go and the newline stays |
| Contacts.GroupCounts | ContactsFinder.py:117-120 | a space and a run of digits add one plain space and no hyphen to a string |
| Contacts.LineEndNumberDropped | ContactsFinder.py:116-125 | such a node contributes no phone |
| Contacts.NewlineEndedPhoneDropped | ContactsFinder.py:116-125 | the node `+7 912 345 67 89` followed by a newline contributes no phone |
| Contacts.UnionMembership | ContactsFinder.py:121-125 | a string is in a result set exactly when some processed node contributed it |
| Contacts.UnionSameNodes | ContactsFinder.py:102-103 | node order and repeated nodes do not change the result sets |
| Contacts.UnionAppend | ContactsFinder.py:114 | processing the nodes in two parts collects the union of the two parts' sets |
| Contacts.UnionGrows | ContactsFinder.py:121-125 | the sets only grow while the nodes are processed |
| Finder.Fetch.Processed | ContactsFinder.py:113-114 | the nodes processed are a prefix of the counted nodes: all of them on success, those before the fault on a failure |
| Finder.Fetch.Banner | ContactsFinder.py:128-137 | the text starts with nothing after a successful fetch, with `INVALID_URL` after an invalid URL, and with `UNDEFINED` after any other failure |
| Finder.RenderedBy | ContactsFinder.py:128-143 | the banner, then the lines of one enumeration of the emails, then those of one enumeration of the phones, is a rendering of the run |
| Finder.ListingParts | ContactsFinder.py:128-143 | such a text holds the banner, then exactly one line per email, then exactly one line per phone |
| Finder.RenderedLists | ContactsFinder.py:128-143 | the final text is the error banner, if any, then one line per collected email, then one line per collected phone, each listed exactly once |
| Finder.ScanStep | ContactsFinder.py:114-126 | processing one more node adds that node's emails and phones, and one more progress tick |
| Finder.TicksStep | ContactsFinder.py:126 | one more `step(1)` appends the next progress value |
| Finder.UnionStep | ContactsFinder.py:114-125 | one more node adds its contribution to the accumulated set |
| Finder.LinesMember | ContactsFinder.py:139-142 | a string's line is in the listing exactly when the string is among the listed items |
| Finder.ProgressBounded | ContactsFinder.py:113-126 | the progress values shown during a run never exceed the node count, and a successful run reaches it |
| Finder.AddAll | ContactsFinder.py:121-122 | adding every match to the email set gives the old set together with the matches |
| Finder.AddKept | ContactsFinder.py:123-125 | adding the matches of length 11 or 12 to the phone set gives the old set together with exactly those matches |
| Finder.AddNode | ContactsFinder.py:115-125 | one pass of the loop body adds exactly the node's emails and kept phones |
| Finder.ContactsFinder.constructor | ContactsFinder.py:77-99 | a new window has an empty text and a progress bar at 0 out of 100 |
| Finder.ContactsFinder.ClearText | ContactsFinder.py:104-106 | the text widget becomes empty |
| Finder.ContactsFinder.Insert | ContactsFinder.py:131 | the chunk is appended at the end of the text |
| Finder.ContactsFinder.Step | ContactsFinder.py:126 | the progress value goes up by exactly one |
| Finder.ContactsFinder.ResetProgress | ContactsFinder.py:144 | the progress value goes back to 0 |
| Finder.ContactsFinder.InsertLines | ContactsFinder.py:139-142 | each member of the set is appended once, with its `'\n'`, in some order |
| Finder.ContactsFinder.ScanNodes | ContactsFinder.py:114-126 | after the first `stop` nodes, the sets are the unions of those nodes' emails and kept phones, and the progress bar has shown 1, 2, …, `stop` |
| Finder.ContactsFinder.Collect | ContactsFinder.py:102-126 | the text is cleared, the maximum is set when the nodes were counted, and the sets are those of the processed nodes, with one tick each, and the progress value is the number of processed nodes |
| Finder.ContactsFinder.Report | ContactsFinder.py:127-144 | the text becomes the banner then one line per email and per phone, and the progress value goes back to 0 |
| Finder.ContactsFinder.GetContacts | ContactsFinder.py:101-144 | the progress maximum is the node count if the nodes were counted, the progress bar shows one tick per processed node and ends at 0, and the text is the right banner followed by the collected emails and phones |
| Geometry.Place | ContactsFinder.py:249-254 | the window is 500 by 292; x is exactly half the spare width plus an eighth of the screen, each rounded down; y is a third of the spare height, rounded down; both are non-negative on a screen at least that large |
| Geometry.GeometryString | ContactsFinder.py:255 | the returned `"WxH+X+Y"` string reads back as exactly the computed placement |
| Geometry.NatDecimal | ContactsFinder.py:255 | `str()` of a non-negative integer is a non-empty string of digits with no leading zero |
| Geometry.Decimal | ContactsFinder.py:255 | `str()` of an integer has a minus sign exactly when the integer is negative, then digits with no leading zero |
| Geometry.NatDecimalValue | ContactsFinder.py:255 | the digits of a non-negative integer denote it |
| Geometry.DecimalRoundTrip | ContactsFinder.py:255 | reading back the decimal string of an offset gives the offset |
| Geometry.IndexOf | ContactsFinder.py:255 | the position found is the first occurrence of the separator, or the end when there is none |
| Geometry.CutJoin | ContactsFinder.py:255 | splitting at a separator absent from the left part gives back the two parts |
| Geometry.DecimalHasNoSeparator | ContactsFinder.py:255 | a decimal contains neither `x` nor `+` |
| Geometry.FieldsParse | ContactsFinder.py:255 | four numbers written as `"WxH+X+Y"` read back as themselves, negative offsets included |

## Left out

- The HTTP request through an aiohttp `ClientSession` and `response.text()` (ContactsFinder.py:108-110) are network I/O. They are replaced by the `Fetch` outcome that `GetContacts` receives.
- BeautifulSoup/lxml parsing, `findAll()` and the `str()` of each element (ContactsFinder.py:110, 113-116) belong to a foreign library. The node strings are given as input. `findAll()` is called twice in the code; the model assumes both calls return the same nodes.
- A fault inside one node's processing, after some of that node's matches were already added, is not modelled. Faults happen only before the nodes are counted or between two nodes. The per-node steps that could raise (`str()`, `findall`) run before any match of that node is added.
- `\d` is modelled as the ASCII digits `0-9` only. Python's Unicode `\d` also admits other decimal digits (Unicode category Nd); those are not in the model. `\s` is modelled as exactly the characters of Python's `str.isspace()`.
- The Tk widgets' own behaviour is not modelled: the text widget's NORMAL/DISABLED editing state, `step()` wrapping the value around at the maximum, and redrawing. The text is the list of chunks inserted.
- The errors module that defines `INVALID_URL` and `UNDEFINED` is not part of this model. The two messages are two distinct placeholder strings.
- The thread and `asyncio.run` wrapper (ContactsFinder.py:146-150) are only there to keep the UI responsive.
- Window and widget construction, the background image and the icons (ContactsFinder.py:28-99) are UI. `__resource_path` (ContactsFinder.py:152-157) is a thin wrapper over `sys._MEIPASS` and `os.path`.
- The Russian-layout keyboard and clipboard handlers (ContactsFinder.py:159-247) are Win32 `ctypes` calls and clipboard UI.
- `__on_close` (ContactsFinder.py:257-258) only exits the process.
- Set iteration order when the results are listed is Python's hash order. The model lets it be any order, and `GetContacts` promises only that each member is listed exactly once.
- Scan.BorderedSpanFound: completeness is stated for spans that no neighbouring pattern character could extend. A span run together with such characters is found as part of a longer or earlier match. `Scan.Spans` and `Scan.SpansSkipNothing` say which match that is.
