# elsametric ETL core, modelled in Dafny

elsametric loads Scopus search results and a few hand-made CSV files into a
relational database of papers, authors, institutions, departments, sources,
keywords and funds, and computes per-author and per-department statistics.
This project models the code that turns the records into ORM objects, and
proves what that code does.

- `helpers.dfy` (module `Helpers`): `country_names`, `data_inspector`,
  `key_get`, `nullify` and `strip`.
- `keywords.dfy`, `funds.dfy`, `sources.dfy`, `institutions.dfy`,
  `authors.dfy`, `papers.dfy`: the processors that build a paper's
  keywords, fund, source, institutions, authors and the paper itself from
  one Scopus record, looking up what the database already holds.
- `files.dfy` (module `Files`): `file_process`, the loop over the entries
  of one file. It triages each entry with `data_inspector`, keeps the
  papers `paper_process` returns, and builds the problems report.
- `importers.dfy`, `extsources.dfy`, `extmetrics.dfy`, `faculty.dfy`: the
  `ext_*` importers of the country, subject, department, source,
  source-metric and faculty CSV files.
- `aggregates.dfy` (module `Aggregates`): the statistics of `Author` and
  `Department`: institutions, countries, sources, trends, co-authors,
  subjects, keywords, funds and percentile metrics.
- `models.dfy` (module `Models`): the ORM entities and the database
  session. `py.dfy` and `pystr.dfy` hold the Python values and builtins
  the code relies on: JSON values, `dict` lookups, truthiness, `int()`,
  `float()`, `str.strip`, `str.split`, `str.lower` and `str.find`.
  `wrappers.dfy` holds `Option` and `Result`.

Representation choices:

- A Python exception becomes `Err(kind)` of a `Result`, and each
  `try`/`except` becomes a case on the kind.
- A Python dict is an association list in insertion order.
- The session is a snapshot (`Models.Store`) of maps from natural keys to
  the stored objects. A `db.query(...).first()` is a lookup in that
  snapshot.
- Entities whose attributes the code assigns are classes with `var`
  fields; their methods state the whole new state.
- A generator is a `Run`: the items yielded before the first exception,
  and that exception.
- Every loop of the source is a `while` or `for` loop of a method proved
  against a specification function. The function's properties are proved
  as lemmas.

The hazard at `file_process.py:123` is modelled as written. An entry that
has neither 'dc:identifier' nor 'eid' is logged without 'id_scp' and
skipped. If `paper_process` then raises for the next, clean entry, reading
`bad_papers[-1]['id_scp']` raises KeyError, which escapes, and the whole
file is lost. `Files.EscapingKeyError` states this.

## Model

| member | source | states |
|---|---|---|
| Helpers.CountryNames | elsametric/helpers/helpers.py:1-21 | an alias maps to its canonical name; any other hashable value, None included, comes back as it is; a list or dict raises TypeError |
| Helpers.CountryNamesIdempotent | elsametric/helpers/helpers.py:11-21 | folding a name twice gives the same result as folding it once |
| Helpers.CountryNamesChanges | elsametric/helpers/helpers.py:11-21 | the result differs from the input exactly when the input is one of the six aliases |
| Helpers.DollarSet | elsametric/helpers/helpers.py:94 | the set comprehension succeeds iff every item has a hashable '$' entry, and then holds exactly those entries |
| Helpers.KeyGet | elsametric/helpers/helpers.py:81-100 | a missing key or a None value gives `default`; a list gives the first item's '$' entry (IndexError when empty), or with `many` the set of all '$' entries; a dict gives its '$' entry; any other value is returned as is; a non-dict `data` raises TypeError |
| Helpers.Get | elsametric/helpers/helpers.py:81-100 | `key_get` without `many` always yields a single value and agrees with KeyGet, errors included |
| Helpers.KeyGetDecodesWire | elsametric/helpers/helpers.py:88-100 | `key_get` unwraps a bare value, a `{'$': v}` dict and a `[{'$': v}]` list back to `v` |
| Helpers.KeyGetManyDecodesWire | elsametric/helpers/helpers.py:91-94 | with `many`, a list of wrapped values gives exactly the set of those values |
| Helpers.KeyGetDefault | elsametric/helpers/helpers.py:82-89 | a missing key and a None value both give the default |
| Helpers.Nullify | elsametric/helpers/helpers.py:103-122 | the loop over the keys yields `Nullified`: each null-looking value replaced by None |
| Helpers.NullifiedKeys | elsametric/helpers/helpers.py:120-122 | nullify keeps the keys and their order |
| Helpers.NullifiedLookup | elsametric/helpers/helpers.py:120-122 | afterwards a key holds None if its old value was null-looking, and its old value otherwise |
| Helpers.NullifiedIdempotent | elsametric/helpers/helpers.py:120-122 | nullifying twice equals nullifying once |
| Helpers.KeepChars | elsametric/helpers/helpers.py:144 | the filter keeps only accepted characters and never lengthens the text |
| Helpers.KeepCharsCounts | elsametric/helpers/helpers.py:144 | every accepted character is kept as often as the input has it |
| Helpers.KeepCharsAppend | elsametric/helpers/helpers.py:144 | the filter keeps the characters' order: filtering a concatenation filters each part, and one character is kept exactly when it is accepted |
| Helpers.KeepCharsDrop | elsametric/helpers/helpers.py:144 | a rejected character between two runs of accepted ones is dropped and the runs are kept in order |
| Helpers.KeepCharsAccepted | elsametric/helpers/helpers.py:144 | a string made only of accepted characters passes through unchanged |
| Helpers.Strip | elsametric/helpers/helpers.py:125-150 | a falsy value is returned unchanged and a truthy non-str raises AttributeError; a str gives a str; with an empty `accepted_chars` it is the whitespace-stripped str cut to `max_len` when that is non-zero; with a non-empty one every character is accepted, every accepted character keeps its count when `max_len` is 0, and a positive `max_len` bounds the length (the order is `StripFiltered`'s) |
| Helpers.StripFiltered | elsametric/helpers/helpers.py:143-150 | with a non-empty `accepted_chars`, the result is a prefix of the stripped str's accepted characters in their order: all of them for `max_len` 0, `max_len` of them (or all, if fewer) for a positive one, all but the last `-max_len` for a negative one |
| Helpers.StripUnpadded | elsametric/helpers/helpers.py:143-150 | a str without whitespace is only filtered and cut |
| Helpers.IssnDigitsKept | elsametric/helpers/helpers.py:125-150 | an ISSN written with a hyphen keeps its eight characters, in order, under the default filter and `max_len` 8 |
| Helpers.StripIdempotent | elsametric/helpers/helpers.py:125-150 | with a filter that keeps no whitespace and a non-negative `max_len`, stripping twice equals stripping once |
| Helpers.MissingKeysMembers | elsametric/helpers/helpers.py:45-47 | a key is reported missing exactly when it is listed and absent from the entry |
| Helpers.MissingKeysNoDup | elsametric/helpers/helpers.py:45-47 | each missing key is reported once when the key list has no repeats |
| Helpers.NoScopusLink | elsametric/helpers/helpers.py:53 | `all(link['@ref'] != 'scopus' ...)` is true iff every link has an '@ref' other than 'scopus', and false iff some link's '@ref' is 'scopus' |
| Helpers.EntryIssuesOfDict | elsametric/helpers/helpers.py:60-68 | for a dict entry, one tagged issue per lacking key, in key order |
| Helpers.CheckEntry | elsametric/helpers/helpers.py:61-63 | the inner loop gives the issues of one author or affiliation entry |
| Helpers.CheckEntries | elsametric/helpers/helpers.py:59-68 | the outer loop gives the issues of every entry of the list, in order |
| Helpers.CheckKeys | elsametric/helpers/helpers.py:45-47 | the first loop gives exactly the missing first-level keys, in list order |
| Helpers.MissingGuards | elsametric/helpers/helpers.py:50-71 | the `'x' not in issues` tests stand for presence of 'link', 'author', 'affiliation' and 'author-count' in the entry |
| Helpers.SubIssuesGuards | elsametric/helpers/helpers.py:50-71 | the second-level issues never read as the first-level keys checked after them |
| Helpers.CheckLink | elsametric/helpers/helpers.py:50-54 | the 'paper url' stage appends its issue to the list so far |
| Helpers.CheckSubEntries | elsametric/helpers/helpers.py:59-68 | the author and affiliation stages append their issues to the list so far |
| Helpers.CheckAuthorCount | elsametric/helpers/helpers.py:71-76 | the 'author-count' stage appends its issue to the list so far |
| Helpers.DataInspector | elsametric/helpers/helpers.py:24-78 | `data_inspector` returns the Inspection: missing first-level keys, 'paper url', missing author and affiliation keys, bad 'author-count' |
| Helpers.InspectionParts | elsametric/helpers/helpers.py:24-78 | a successful inspection is the concatenation of its stages' issues, in the source's order |
| Helpers.InspectionListsMissingKeys | elsametric/helpers/helpers.py:45-47 | the issue list opens with each missing first-level key, once, in list order |
| Helpers.LinkIssuesPaperUrl | elsametric/helpers/helpers.py:50-54 | the link stage reports 'paper url' exactly when 'link' is present and no link has '@ref' 'scopus' |
| Helpers.InspectionPaperUrl | elsametric/helpers/helpers.py:50-54 | the whole inspection reports 'paper url' exactly as the link stage does |
| Helpers.AuthorCountStage | elsametric/helpers/helpers.py:71-76 | the author-count stage reports 'author-count' at most once: when it has no '$' entry or a falsy one |
| Helpers.InspectionAuthorCountOnce | elsametric/helpers/helpers.py:24-78 | 'author-count' appears at most once in the issues: when the key is missing, or has no '$' entry or a falsy one |
| Keywords.PosSpec | elsametric/helpers/keyword_process.py:53-57 | `Pos` is the first piece whose stripped text matches the term ignoring case, and no earlier piece matches |
| Keywords.PosFound | elsametric/helpers/keyword_process.py:53-57 | some piece matches a term exactly when its lower-cased form is among the pieces' |
| Keywords.TermsAppend | elsametric/helpers/keyword_process.py:53-57 | one more piece adds its stripped text exactly when that text is non-empty and new ignoring case |
| Keywords.TermsStripped | elsametric/helpers/keyword_process.py:54-55 | every kept keyword is non-empty and stripped |
| Keywords.TermsLowers | elsametric/helpers/keyword_process.py:51-57 | the kept keywords have exactly the lower-cased forms of the non-blank pieces |
| Keywords.TermsDistinct | elsametric/helpers/keyword_process.py:55-57 | no two kept keywords are equal ignoring case |
| Keywords.TermsFirstSpelling | elsametric/helpers/keyword_process.py:53-57 | each keyword is spelled as its first matching piece, and the keywords come in the order of those first pieces |
| Keywords.TermsCount | elsametric/helpers/keyword_process.py:51-57 | there are as many keywords as distinct lower-cased non-blank pieces |
| Keywords.KeywordTermsAbsent | elsametric/helpers/keyword_process.py:47-48 | an absent, null or empty 'authkeywords' field gives no keywords |
| Keywords.KeywordTermsOfStr | elsametric/helpers/keyword_process.py:47-53 | a str field is cut at each separator, and the pieces joined back give the field |
| Keywords.CollectStep | elsametric/helpers/keyword_process.py:53-57 | one step of the first loop adds a piece exactly as TermsAppend says and keeps the lower-cased set beside the list |
| Keywords.CollectTerms | elsametric/helpers/keyword_process.py:51-57 | the first loop produces `Terms(pieces)`: stripped, distinct ignoring case, in first-seen order |
| Keywords.ResolveKeywords | elsametric/helpers/keyword_process.py:60-66 | each keyword is the stored one with exactly that text, else a fresh Keyword with that text, in term order |
| Keywords.KeywordProcess | elsametric/helpers/keyword_process.py:23-68 | succeeds iff the field can be read and split; then one Keyword per distinct term, in order, stored when stored with that exact text and fresh otherwise |
| Funds.NormalFundNo | elsametric/helpers/fund_process.py:53-54 | a fund number of 'undefined' becomes 'NOT AVAILABLE'; any other value is kept |
| Funds.FundOfFields | elsametric/helpers/fund_process.py:50-68 | no fund exactly when the normalised number and the defaulted sponsor are both 'NOT AVAILABLE'; otherwise the fund carries the three values read |
| Funds.FundOfErr | elsametric/helpers/fund_process.py:50-52 | reading fails exactly when one of the three `get_key` calls raises |
| Funds.MissingSponsor | elsametric/helpers/fund_process.py:51 | a missing or null sponsor becomes 'NOT AVAILABLE' |
| Funds.UndefinedAndAbsentFundNo | elsametric/helpers/fund_process.py:50-58 | a literal 'undefined' number becomes 'NOT AVAILABLE'; an absent number stays None, and then a fund is always made |
| Funds.NoFundFromRawRecord | elsametric/helpers/fund_process.py:53-60 | on the raw record, 'undefined' with no sponsor gives no fund |
| Funds.FundAfterPaperNullify | elsametric/helpers/fund_process.py:50-68 | on a record already nullified by `paper_process`, a record with neither fund field still yields a fund whose number is None |
| Funds.FundProcess | elsametric/helpers/fund_process.py:23-70 | no fund, or the stored fund with the same number and agency (the acronym is not compared), or a fresh fund with the three values read; errors are those of reading |
| Sources.SourceId | elsametric/helpers/source_process.py:40-43 | `int(get_key(...))` under `except TypeError`: None exactly when either step raises TypeError; any other exception escapes |
| Sources.MissingSourceId | elsametric/helpers/source_process.py:40-43 | a record without a source id, or with a null one, has no source |
| Sources.SourceIdOfWire | elsametric/helpers/source_process.py:41 | a source id in any wire shape, written as an int or as decimal text, is read back |
| Sources.NewSourceValuesShape | elsametric/helpers/source_process.py:52-60 | a new source's title defaults to 'NOT AVAILABLE'; ISSN and e-ISSN are at most 8 characters and ISBN at most 13, all from [0-9xX], and a non-str value is kept |
| Sources.SourceProcess | elsametric/helpers/source_process.py:23-61 | no source when there is no usable id; the stored source of that id, unchanged; or a fresh source built from the record |
| Institutions.AfidOf | elsametric/helpers/institution_process.py:68-74 | an id is read only through `int(get_key(affil, 'afid'))`; TypeError and ValueError mean the entry is skipped, other exceptions escape |
| Institutions.AfidOfWire | elsametric/helpers/institution_process.py:70 | an affiliation id in any wire shape, as an int or as decimal text, is read back |
| Institutions.AfidOfMissing | elsametric/helpers/institution_process.py:68-74 | an affiliation that is not a dict, or has no id, is skipped |
| Institutions.Scan | elsametric/helpers/institution_process.py:67-74 | the search finds a position whose id is `inst_id`, or an exception raised by some entry on the way |
| Institutions.ScanFirst | elsametric/helpers/institution_process.py:67-74 | only the first matching affiliation is used; no match means every entry was read and none matched |
| Py.ListField | elsametric/helpers/institution_process.py:62-67 | `if not data[key]` then `for x in data[key]`: a falsy value gives nothing to visit and a missing key raises KeyError; used for 'affiliation' here and for 'author' in the same guard and loop at author_process.py:55-62 |
| Py.ListFieldIterates | elsametric/helpers/institution_process.py:67 | a truthy value under the key is iterated: the elements are exactly those `for x in data[key]` visits |
| Institutions.NewInstitutionName | elsametric/helpers/institution_process.py:100-104 | a new institution's name defaults to 'NOT AVAILABLE' |
| Institutions.CountryFor | elsametric/helpers/institution_process.py:105-111 | the country is the stored country of the folded name when that name is truthy and stored, else none |
| Institutions.FindAffiliation | elsametric/helpers/institution_process.py:67-74 | the loop up to its `break` computes `Scan`: the first affiliation whose id parses to `inst_id` |
| Institutions.ResolveStored | elsametric/helpers/institution_process.py:79-118 | a stored institution gives its 'Undefined' department; when it has none, a fresh one is appended to its departments and linked to it |
| Institutions.ResolveNew | elsametric/helpers/institution_process.py:89-96 | an institution of `new_institutions` with that id gives its first department; IndexError when it has none |
| Institutions.CreateInstitution | elsametric/helpers/institution_process.py:100-118 | a fresh institution with the entry's id, name, city and country, whose only department is a fresh 'Undefined' one |
| Institutions.InstitutionProcess | elsametric/helpers/institution_process.py:23-123 | no match gives (None, None) and changes nothing; a match gives the stored, pending or new institution with its 'Undefined' department; stored institutions only gain departments |
| Authors.AuthorIdOf | elsametric/helpers/author_process.py:63-66 | an id is read only through `int(get_key(auth, 'authid'))`; TypeError means the entry is skipped, any other exception escapes |
| Authors.AuthorIdMissing | elsametric/helpers/author_process.py:63-66 | an entry without an author id, or with a null one, is skipped |
| Authors.AuthorNoOf | elsametric/helpers/author_process.py:76-79 | `int(auth['@seq'])` under `except TypeError`: 0 for a non-dict entry or a None position; a missing key raises KeyError |
| Authors.AuthorNoOfText | elsametric/helpers/author_process.py:77 | a position written as the text of an int is that int |
| Authors.KeptShape | elsametric/helpers/author_process.py:62-74 | the kept entries carry the id read there, come in increasing position, have pairwise distinct ids, and are no more than the entries |
| Authors.KeptFirst | elsametric/helpers/author_process.py:72-74 | every id read is kept at its first entry, and later repeats are dropped |
| Authors.KeptReadIds | elsametric/helpers/author_process.py:62-74 | the ids of the kept entries are exactly the ids read |
| Authors.FindOrCreateAuthor | elsametric/helpers/author_process.py:81-96 | the stored author of that id, or a fresh author with the entry's names, a Scopus profile at the author URL, and no departments |
| Authors.AffiliationOf | elsametric/helpers/author_process.py:105-111 | `institution_process` for one afid raises exactly when the institution's exception (`InstError`: reading the affiliations, or a new institution's values) is raised, and then that exception; otherwise None exactly when the record lists no such affiliation, else the stored, pending or new institution of that id with its first 'Undefined' department; only that institution can change |
| Authors.AffiliatedListed | elsametric/helpers/author_process.py:99-111 | every id linked is an afid value of the entry, read as an int, whose affiliation the record lists |
| Authors.AttachLink | elsametric/helpers/author_process.py:108-109 | `author.departments.append(department)` appends exactly that department and changes no institution |
| Authors.LinkOne | elsametric/helpers/author_process.py:105-111 | one pass of the inner loop links the affiliation's department, or nothing when the record lists none; it raises exactly when `int()` of the afid value or `institution_process` raises, and that exception |
| Authors.LinkEach | elsametric/helpers/author_process.py:99-111 | the inner loop over a list of afids appends one department per afid whose affiliation the record lists, in order; the loop raises exactly the exception of the first afid that raises, if any |
| Authors.LinkSet | elsametric/helpers/author_process.py:99-111 | the inner loop over a set of afids does the same in some order that lists each member once; it raises exactly when some member can raise, then an exception of a member visited after members that raised nothing |
| Authors.LinkAffiliations | elsametric/helpers/author_process.py:99-111 | an entry's afid values, then the inner loop: the departments appended are those of the affiliated ids, in the order visited; it raises exactly when `key_get`, `iter` or the visit of an afid can raise, and then one of those exceptions |
| Authors.ProcessEntry | elsametric/helpers/author_process.py:76-113 | the body of the outer loop for a new id: its position, its author (fresh with a Scopus profile when not stored) and the links to its affiliations; it raises exactly when reading the position, a new author's names or the links can raise, the first of these in that order, and then one of its exceptions |
| Authors.ProcessEntries | elsametric/helpers/author_process.py:62-113 | the outer loop gives one row per kept entry, each author linked to the institutions of its affiliations; the loop raises exactly when a turn after turns that raised nothing can raise, and then one of that turn's exceptions |
| Authors.KeptRows | elsametric/helpers/author_process.py:72-113 | the rows are no more than the entries and name pairwise distinct authors |
| Authors.AuthorProcess | elsametric/helpers/author_process.py:24-114 | raises exactly when reading the author list or one of the outer loop's turns can raise, and then one of those exceptions; otherwise one (position, author) row per kept entry, in entry order; each author's departments are its old ones followed by one per affiliated afid; stored authors keep their profiles; authors and institutions the record does not name are unchanged |
| Authors.ProcessList | elsametric/helpers/author_process.py:62-113 | the outer loop over the entries raises exactly when a turn after turns that raised nothing can raise, and then one of its exceptions; otherwise its rows are those `Built` describes |
| Authors.LinkAuthor | elsametric/helpers/author_process.py:98-113 | an entry's links raise exactly when reading its afid values or visiting one can, and then one of those exceptions; otherwise the departments appended to the author are those of its affiliated ids, in the order visited |
| Authors.FirstAfidStays | elsametric/helpers/author_process.py:100-106 | once an afid value has raised, the values after it are never visited |
| Authors.FirstAfidNone | elsametric/helpers/author_process.py:100-106 | visiting afid values in a list raises nothing exactly when none of them raises |
| Authors.SetErrorsNone | elsametric/helpers/author_process.py:99-106 | a listing of a set of afid values whose visit raises nothing shows that no member raises |
| Authors.SetErrorsFirst | elsametric/helpers/author_process.py:99-106 | a member visited after members that raised nothing, and raising, raises an exception the set can raise, and the first one raised |
| Authors.AffiliatedNum | elsametric/helpers/author_process.py:105-106 | an afid value that `int()` reads as `n` links and raises as `n` does |
| Authors.ErrorsStay | elsametric/helpers/author_process.py:62-113 | once a turn of the outer loop has raised, the later entries are never visited |
| Authors.ErrorsStep | elsametric/helpers/author_process.py:62-113 | a turn after turns that raised nothing raises what its own entry can |
| Authors.SharedAffiliation | elsametric/helpers/author_process.py:59-111 | two links to the same institution id, made by any authors of the record, are the same institution object and the same department |
| Authors.StoredAffiliation | elsametric/helpers/author_process.py:105-106 | a link to an institution id the store has is to the stored institution |
| Papers.PaperUrlFirst | elsametric/helpers/paper_process.py:62-66 | the url is the '@href' of the first link tagged 'scopus'; with every tag read and none 'scopus' there is no url |
| Papers.PaperUrlMatchesInspection | elsametric/helpers/paper_process.py:62-66 | the url agrees with the inspector's 'paper url' check: none without a scopus link, the first scopus link's address otherwise, and the same error on a malformed link |
| Papers.FindPaperUrl | elsametric/helpers/paper_process.py:62-66 | the loop that stops at the first scopus link computes `PaperUrl` |
| Papers.ScopusIdOf | elsametric/helpers/paper_process.py:71 | a missing identifier raises KeyError and a non-str one AttributeError |
| Papers.ScopusIdOfText | elsametric/helpers/paper_process.py:71 | an identifier 'SCOPUS_ID:<n>' is read back as n |
| Papers.PaperTitle | elsametric/helpers/paper_process.py:72-76 | a title read is at most 512 characters |
| Papers.PaperTitleMissing | elsametric/helpers/paper_process.py:72-76 | a missing or null title becomes 'NOT AVAILABLE' |
| Papers.PaperTitleText | elsametric/helpers/paper_process.py:72-76 | a non-empty str title is whitespace-stripped and cut to 512 characters |
| Papers.HeaderOf | elsametric/helpers/paper_process.py:62-76 | a header read agrees with the Scopus id, title and url read separately; a record without 'link' raises KeyError |
| Papers.ReadHeader | elsametric/helpers/paper_process.py:62-76 | the statements that read url, id and title compute `HeaderOf` |
| Papers.Resolve | elsametric/helpers/paper_process.py:77-97 | the stored paper of the Scopus id; else, with a truthy DOI, the stored paper of that DOI when its title agrees; a DOI match with another title gives no paper and no DOI; the DOI's read error escapes only when it is read |
| Papers.DefaultEidReadBack | elsametric/helpers/paper_process.py:104 | the default eid '2-s2.0-<id>' reads back as the Scopus id |
| Papers.DescriptionOf | elsametric/helpers/paper_process.py:103-111 | defaults: eid '2-s2.0-<id>', type 'na', type description 'NOT AVAILABLE', open access 0 |
| Papers.DetailsOf | elsametric/helpers/paper_process.py:112-121 | the volume is stripped and at most 45 characters |
| Papers.NewPaperFields | elsametric/helpers/paper_process.py:102-122 | a new paper's fields are the values read, in keyword-argument order, with the header's id, title and url and the given DOI and retrieval time |
| Papers.NewPaperDefaults | elsametric/helpers/paper_process.py:102-122 | a new paper has the default eid, type, type description and open-access flag, a title of at most 512 and a volume of at most 45 characters |
| Papers.AppendAuthors | elsametric/helpers/paper_process.py:131-135 | the loop appends exactly those associations to `paper.authors` and changes nothing else |
| Papers.CompleteSource | elsametric/helpers/paper_process.py:125 | a paper with a source keeps it; one without raises exactly `source_process`'s exception (an unreadable source id, or unreadable values for a source not stored), and otherwise gets the source the record gives |
| Papers.CompleteFund | elsametric/helpers/paper_process.py:126 | a paper with a fund keeps it; one without raises exactly `fund_process`'s exception, and otherwise gets the fund the record gives |
| Papers.CompleteKeywords | elsametric/helpers/paper_process.py:127 | a paper with keywords keeps them; one without raises exactly `keyword_process`'s exception, and otherwise gets the record's keyword terms |
| Papers.CompleteRefs | elsametric/helpers/paper_process.py:125-127 | raises exactly the exception of the first of the three processors that runs (only for a part the paper lacks) and raises; otherwise each missing part is filled and the present ones kept |
| Papers.CompleteAuthors | elsametric/helpers/paper_process.py:129-137 | a paper with authors keeps them; one without raises exactly when `author_process` can raise, and one of its exceptions; otherwise it gets one association per `author_process` row; the author count becomes the number of associations |
| Papers.ReadAuthors | elsametric/helpers/paper_process.py:130 | `author_process` raises exactly when it can, one of its exceptions; otherwise its rows are those of the record's authors |
| Papers.BuiltRows | elsametric/helpers/paper_process.py:130 | the rows the loop of `author_process` builds are those of the record's authors |
| Papers.AttachAuthors | elsametric/helpers/paper_process.py:131-137 | a paper without authors gets one association per row, and the author count is set |
| Papers.Complete | elsametric/helpers/paper_process.py:125-137 | raises exactly when completing the references raises, or, when they do not and the paper has no authors, when `author_process` can raise; otherwise what is present is kept, what is missing is filled from the record, and the author count is set |
| Papers.Target | elsametric/helpers/paper_process.py:77-97 | the only stored paper the call may change is the one the record resolves to |
| Papers.TargetOf | elsametric/helpers/paper_process.py:77-97 | the paper a record resolves to is one of the stored papers |
| Papers.ProcessResolved | elsametric/helpers/paper_process.py:99-139 | once resolved: raises exactly when completing the stored paper, or reading and then completing a new paper, can raise; otherwise that paper, completed |
| Papers.ProcessHeader | elsametric/helpers/paper_process.py:77-139 | once the header is read: a header exception escapes as it is; the call raises exactly when `HeaderErrors` is not empty, one of its exceptions; otherwise the paper `YieldsOf` names, completed |
| Papers.PaperProcess | elsametric/helpers/paper_process.py:27-139 | raises exactly when reading the header, the DOI, a new paper's values or completing the paper can raise, given what the resolved stored paper held before the call, and then one of those exceptions; a header exception escapes as it is; otherwise the paper returned is the resolved stored paper, completed, or a fresh paper with `NewPaperFields`, completed; only the resolved paper among the stored ones may change |
| Files.Major | elsametric/helpers/file_process.py:110 | the major issues are exactly the issues not in the minor list |
| Files.RemoveFirst | elsametric/helpers/file_process.py:101 | `issues.remove(x)` drops one occurrence of `x` and keeps the rest |
| Files.EidId | elsametric/helpers/file_process.py:97 | a missing eid raises KeyError, a non-str AttributeError, and a bad number ValueError |
| Files.EidIdOfDefault | elsametric/helpers/file_process.py:97 | an eid '2-s2.0-N' gives the Scopus id N |
| Files.TriageEntry | elsametric/helpers/file_process.py:83-112 | inspecting, logging, rebuilding the Scopus id and dropping the minor issues compute `Triage` |
| Files.ClassifyIssues | elsametric/helpers/file_process.py:84-112 | a record is logged iff there are issues; an entry is processed only when every issue is minor apart from a rebuilt 'dc:identifier'; a skipped entry has a major issue; minor issues alone never stop it |
| Files.TriageNoIds | elsametric/helpers/file_process.py:88-93 | an entry lacking both 'dc:identifier' and 'eid' is logged without 'id_scp' and skipped |
| Files.NotLater | elsametric/helpers/helpers.py:45-76 | a plain key is reported only by the first-level stage of the inspection |
| Files.InspectionIdKeys | elsametric/helpers/file_process.py:88-92 | 'dc:identifier' and 'eid' are among the issues exactly when the entry lacks them |
| Files.ScopusIdKept | elsametric/helpers/file_process.py:100 | the rebuilt 'SCOPUS_ID:N' survives `nullify` and reads back as N in `paper_process` |
| Files.ClassifyDerivesId | elsametric/helpers/file_process.py:95-112 | a missing 'dc:identifier' with eid '2-s2.0-N' becomes 'SCOPUS_ID:N', the record gets that 'id_scp', and the remaining issues decide |
| Files.TriageDerivesId | elsametric/helpers/file_process.py:95-106 | the id rebuilt from the eid is the id `paper_process` then reads |
| Files.ClassifyKeepsUnique | elsametric/helpers/file_process.py:100 | the entry handed on still has unique keys |
| Files.OnError | elsametric/helpers/file_process.py:118-133 | after an exception, the last record gets the error type when its 'id_scp' equals the entry's id; otherwise a new record is appended; a last record without 'id_scp', or an entry without 'dc:identifier', raises KeyError, except that an entry without 'dc:identifier' and no record yet raises IndexError from the `finally` block |
| Files.SucceededInOrder | elsametric/helpers/file_process.py:116-117 | the papers come in entry order, at most one per entry, each from an entry handed on whose call returned |
| Files.TriageOwnRecord | elsametric/helpers/file_process.py:86 | an entry's record, if any, carries its own index and issues |
| Files.StepRecords | elsametric/helpers/file_process.py:86-133 | one round adds its own record with issues, if any, and no other |
| Files.LogRecords | elsametric/helpers/file_process.py:82-133 | each round that finds issues leaves exactly one record with its index and issue list, in entry order; no other record carries issues |
| Files.LogErrStays | elsametric/helpers/file_process.py:121-133 | an exception escaping a round ends the file: nothing after it is logged |
| Files.TriageClean | elsametric/helpers/file_process.py:83-117 | an entry without issues is handed on unchanged and logs nothing |
| Files.SkippedThenFailed | elsametric/helpers/file_process.py:92-133 | a record without 'id_scp' last, then a clean entry whose `paper_process` call raises, makes the file raise KeyError |
| Files.LogStep | elsametric/helpers/file_process.py:82-133 | round `j` extends the log of the rounds before it |
| Files.EscapingKeyError | elsametric/helpers/file_process.py:88-127 | an entry lacking both ids followed by a clean entry whose processing raises loses the whole file to a KeyError |
| Files.Visit | elsametric/helpers/file_process.py:83-133 | one round: its triage, its log step, a paper exactly when the entry is handed on and the call raises nothing; the call raises exactly when `paper_process` can raise on the entry, given what its stored paper held, and then one of those exceptions; the paper is the one `paper_process` returns |
| Files.Hand | elsametric/helpers/file_process.py:116-133 | the `paper_process` call of a handed entry: a paper exactly when nothing is raised; otherwise the exception is recorded by `OnError` |
| Files.HeaderErrorLogged | elsametric/helpers/file_process.py:116-133 | when a handed entry's header cannot be read, that exception is the one logged for it |
| Files.Round | elsametric/helpers/file_process.py:82-133 | a round of the entry loop keeps what the loop promises with one more entry: the triages, the exceptions that agree with what `paper_process` can raise, the log or the escaping exception, and the papers returned |
| Files.PapersStep | elsametric/helpers/file_process.py:116-117 | one more round keeps the papers those of the successful calls |
| Files.PapersFromAt | elsametric/helpers/file_process.py:116-117 | paper `j` is the one returned for the `j`-th entry whose call succeeded |
| Files.RoundAppend | elsametric/helpers/file_process.py:82-133 | one more round extends the log by its step, the successful calls by its own, and keeps every entry's exception in agreement with `paper_process` |
| Files.FileProcess | elsametric/helpers/file_process.py:27-142 | every entry handed on raised exactly when `paper_process` can raise on it, one of those exceptions; the problems report is None exactly when nothing was logged and otherwise the log; the papers are those `paper_process` returned for the entries handed on, in order; an escaping exception is the log's error |
| Importers.StripValue | elsametric/helpers/ext_country_process.py:62 | `v.strip()` succeeds exactly on a str; None raises AttributeError |
| Importers.Field | elsametric/helpers/ext_country_process.py:62 | `row[k]` raises KeyError exactly when the row has no column `k` |
| Importers.CellIsGet | elsametric/helpers/ext_source_process.py:86-101 | on a CSV row `get_key` never raises and returns the cell, or the default for a missing or None cell |
| Importers.NullifiedCsv | elsametric/helpers/ext_country_process.py:61 | `nullify` keeps a CSV row a CSV row |
| Importers.CollectOk | elsametric/helpers/ext_country_process.py:60-74 | the row loop runs to the end exactly when no row raises |
| Importers.CollectFirstError | elsametric/helpers/ext_country_process.py:60-74 | the exception the loop raises is the one of the first row that raises |
| Importers.CollectLength | elsametric/helpers/ext_country_process.py:60-74 | the loop returns one item per row that adds one |
| Importers.CollectAt | elsametric/helpers/ext_country_process.py:60-74 | row i's item sits after those of the adding rows before it, so the items are in row order |
| Importers.CollectFrom | elsametric/helpers/ext_country_process.py:60-74 | every item comes from a row that adds it |
| Importers.GenerateCollect | elsametric/helpers/ext_source_process.py:71-113 | a generator that does not raise yields what the loop would return; one that raises stops with the loop's exception |
| Importers.GenerateYieldsPrefix | elsametric/helpers/ext_source_process.py:71-113 | the items handed out are those of the rows before the first one that raises, and the generator stops with that row's exception |
| Importers.GenerateFrom | elsametric/helpers/ext_source_process.py:71-113 | every item handed out comes from a row that yields it |
| Importers.CountryStep | elsametric/helpers/ext_country_process.py:60-73 | one pass of the loop appends the row's new country, if any, or raises |
| Importers.ExtCountryProcess | elsametric/helpers/ext_country_process.py:24-74 | succeeds iff no row raises; the countries returned are `CountryRows`, one per row whose folded, stripped name is not stored |
| Importers.AliasFolded | elsametric/helpers/ext_country_process.py:62 | a row named "USA" is looked up as "United States" |
| Importers.AliasBeforeStrip | elsametric/helpers/ext_country_process.py:62 | aliases are folded before stripping: " USA" is only stripped and looked up as "USA" |
| Importers.CountryRowNew | elsametric/helpers/ext_country_process.py:62-72 | a row that adds a country gives it an unstored name and stripped columns |
| Importers.CountryRowsNew | elsametric/helpers/ext_country_process.py:58-74 | every country returned is new to the store and has stripped fields |
| Importers.CountryRowsInOrder | elsametric/helpers/ext_country_process.py:58-74 | one country per adding row, in row order; two equal rows add two equal countries |
| Importers.SubjectStep | elsametric/helpers/ext_subject_process.py:59-72 | one pass of the loop appends the row's new subject, if any, or raises |
| Importers.ExtSubjectProcess | elsametric/helpers/ext_subject_process.py:24-73 | succeeds iff no row raises; the subjects returned are `SubjectRows`, one per row whose stripped code is not stored |
| Importers.SubjectRowNew | elsametric/helpers/ext_subject_process.py:61-71 | a row that adds a subject has an unstored code and stripped columns |
| Importers.SubjectPaddedCodeStored | elsametric/helpers/ext_subject_process.py:61-64 | the code is stripped before the lookup, so a stored code padded with spaces is found |
| Importers.SubjectRowsNew | elsametric/helpers/ext_subject_process.py:57-73 | every subject returned has an unstored code and stripped columns |
| Importers.SubjectRowsInOrder | elsametric/helpers/ext_subject_process.py:57-73 | one subject per adding row, in row order; equal rows each add one |
| Importers.FillOk | elsametric/helpers/ext_department_process.py:26-28 | the loop runs to the end exactly when no row raises |
| Importers.FillKeys | elsametric/helpers/ext_department_process.py:26-28 | the dict's keys are exactly the keys of the rows |
| Importers.FillLast | elsametric/helpers/ext_department_process.py:26-28 | a key holds the value of the last row that sets it |
| Importers.FillFrom | elsametric/helpers/ext_department_process.py:26-28 | every entry of the dict was set by some row |
| Importers.ExtDepartmentProcess | elsametric/helpers/ext_department_process.py:6-29 | the loop that fills the dict computes `DepartmentMap`, evaluating the value before the key |
| Importers.DepartmentMapEmpty | elsametric/helpers/ext_department_process.py:24-29 | no rows give the empty dict |
| Importers.DepartmentMapOk | elsametric/helpers/ext_department_process.py:26-28 | the dict is built exactly when every row has the three columns and a hashable abbreviation |
| Importers.DepartmentMapKeys | elsametric/helpers/ext_department_process.py:26-28 | the dict's keys are exactly the rows' abbreviations |
| Importers.DepartmentMapLast | elsametric/helpers/ext_department_process.py:26-28 | for a repeated abbreviation the last row that has it gives the value |
| Importers.DepartmentMapValues | elsametric/helpers/ext_department_process.py:27-28 | every value is a dict with exactly the keys 'name' and 'type' |
| ExtSources.AsjcCodes | elsametric/helpers/ext_source_process.py:101-104 | only a str can be split; anything else raises AttributeError |
| ExtSources.AsjcCodesShape | elsametric/helpers/ext_source_process.py:103-104 | every code is a non-empty stripped piece without ';', and every non-blank piece gives its code |
| ExtSources.CodeSubject | elsametric/helpers/ext_source_process.py:106-111 | a code links `subjects[int(code)]`; a code that is not an int or not a known subject links nothing |
| ExtSources.LinkingCodes | elsametric/helpers/ext_source_process.py:105-111 | the codes that link a subject are exactly those with a link |
| ExtSources.LinkedLength | elsametric/helpers/ext_source_process.py:105-111 | whatever the set's visiting order, one subject is appended per linking code |
| ExtSources.LinkedMembers | elsametric/helpers/ext_source_process.py:105-111 | a subject is appended exactly when one of the visited codes links it |
| ExtSources.LeadingZeroLinks | elsametric/helpers/ext_source_process.py:108 | a code and its spelling with a leading zero both name the same subject |
| ExtSources.TwoSpellingsLinkTwice | elsametric/helpers/ext_source_process.py:103-111 | the two spellings are distinct members of the set, so that subject is appended twice |
| ExtSources.LinkCode | elsametric/helpers/ext_source_process.py:106-111 | the body of the code loop appends the linked subject, if any, and changes nothing else |
| ExtSources.LinkSubjects | elsametric/helpers/ext_source_process.py:105-111 | the loop over the set appends the subjects linked by its codes, in the order visited, which lists each code once |
| ExtSources.SourceId | elsametric/helpers/ext_source_process.py:73-76 | a None id skips the row; a missing column raises KeyError and a non-int str ValueError, neither caught |
| ExtSources.ReadSourceRow | elsametric/helpers/ext_source_process.py:71-72 | reading row `i` gives the element the generator sees there |
| ExtSources.NullIdSkipped | elsametric/helpers/ext_source_process.py:72-76 | a null-looking id skips the row |
| ExtSources.MissingIdRaises | elsametric/helpers/ext_source_process.py:74 | a row without an id column raises KeyError |
| ExtSources.StoredSkipped | elsametric/helpers/ext_source_process.py:77-81 | a row whose source is stored yields nothing |
| ExtSources.NewSourceId | elsametric/helpers/ext_source_process.py:74-85 | a new source carries the row's id, which the store does not have |
| ExtSources.SourceRunNew | elsametric/helpers/ext_source_process.py:71-113 | over a whole file, only sources whose id the store does not have are yielded |
| ExtSources.NewSourceDefaults | elsametric/helpers/ext_source_process.py:84-91 | the title defaults to 'NOT AVAILABLE', the type falls back to `src_type` when the row's is falsy, the other columns are taken as they are |
| ExtSources.NoCodes | elsametric/helpers/ext_source_process.py:101-104 | a row without ASJC codes links no subject |
| ExtSources.CsvCodes | elsametric/helpers/ext_source_process.py:101-104 | on a CSV row the codes are read from a str, so reading them never raises |
| ExtSources.SourceCountrySpec | elsametric/helpers/ext_source_process.py:93-98 | the country is set only from a truthy folded name, and is that name's stored country or none |
| ExtSources.NewSource | elsametric/helpers/ext_source_process.py:84-111 | the row body builds a fresh source from the row's values, country and linked subjects |
| ExtSources.SourceStep | elsametric/helpers/ext_source_process.py:71-113 | one pass of the row loop raises, yields nothing, or yields one new source built from the row |
| ExtSources.ExtSourceProcess | elsametric/helpers/ext_source_process.py:24-113 | the sources yielded up to the first row that raises, each fresh and built from its row, then that row's exception; none of them has a stored id |
| ExtMetrics.MetricTypesDistinct | elsametric/helpers/ext_source_metric_process.py:33-41 | the seven metric columns have distinct stored names |
| ExtMetrics.AddedMembers | elsametric/helpers/ext_source_metric_process.py:94-104 | a metric is appended exactly when it is of the file's year, its kind is not there yet for that year, and a column stored under its kind holds its value |
| ExtMetrics.AddedLength | elsametric/helpers/ext_source_metric_process.py:94-104 | at most one metric per column is appended |
| ExtMetrics.AddedDistinct | elsametric/helpers/ext_source_metric_process.py:94-104 | the appended metrics have distinct kinds |
| ExtMetrics.AddedNone | elsametric/helpers/ext_source_metric_process.py:101 | when every available column's kind is already there for the year, nothing is appended |
| ExtMetrics.NewMetricsKeepUnique | elsametric/helpers/ext_source_metric_process.py:89-104 | a row never gives a source two metrics of one kind for one year |
| ExtMetrics.NewMetricsCover | elsametric/helpers/ext_source_metric_process.py:89-104 | after a row, the source has a metric of the year for every column of the row with an available value |
| ExtMetrics.NewMetricsIdempotent | elsametric/helpers/ext_source_metric_process.py:89-104 | reading the same row again for the same year appends nothing |
| ExtMetrics.CurrentKinds | elsametric/helpers/ext_source_metric_process.py:89-92 | the loop over the source's metrics collects the kinds it has for the year |
| ExtMetrics.AddMetric | elsametric/helpers/ext_source_metric_process.py:95-104 | the body for one column appends its metric when it is available and new, and changes nothing else |
| ExtMetrics.AddMetrics | elsametric/helpers/ext_source_metric_process.py:94-104 | the column loop appends exactly `NewMetrics` and changes nothing else |
| ExtMetrics.PublisherCountry | elsametric/helpers/ext_source_metric_process.py:68-78 | the country is some other source of the same publisher's country, or none exactly when no such source has one |
| ExtMetrics.FillSubject | elsametric/helpers/ext_source_metric_process.py:80-85 | subjects are kept when present; otherwise a truthy code adds at most the subject it names; `int()` of a bad code raises, an unknown subject is skipped |
| ExtMetrics.FilledGrows | elsametric/helpers/ext_source_metric_process.py:66-104 | filling a source never overwrites its publisher, country, subjects or metrics, and adds at most one metric per column |
| ExtMetrics.FilledTwice | elsametric/helpers/ext_source_metric_process.py:66-104 | reading a row into a source a second time changes neither its publisher, nor its subjects, nor its metrics |
| ExtMetrics.FillSource | elsametric/helpers/ext_source_metric_process.py:66-104 | the lines after the source is found or made fill in the publisher, the country, the subject and the metrics as `Filled` says |
| ExtMetrics.FillHeader | elsametric/helpers/ext_source_metric_process.py:66-78 | the publisher is kept when set, else taken from the row; the country as `PublisherCountry` says |
| ExtMetrics.FillBody | elsametric/helpers/ext_source_metric_process.py:80-104 | the subject and the metrics, leaving publisher and country alone |
| ExtMetrics.CsvSourceArgs | elsametric/helpers/ext_source_metric_process.py:57-63 | on a CSV row a new source's arguments are always made, with ISSNs cut to 8 characters of [0-9xX] |
| ExtMetrics.MetricRow | elsametric/helpers/ext_source_metric_process.py:44-106 | one pass: an id error escapes, a None id skips the row, a stored id fills and yields that stored source, a new id fills and yields a fresh source |
| ExtMetrics.AvailableInMembers | elsametric/helpers/ext_source_metric_process.py:94-98 | the kinds a row carries are the names of its columns with a value |
| ExtMetrics.YearKindsGrow | elsametric/helpers/ext_source_metric_process.py:102-104 | metrics are only appended, so the kinds of a year only grow |
| ExtMetrics.FilledCovers | elsametric/helpers/ext_source_metric_process.py:89-104 | once a row is read into a source, the source has a metric of the year for every kind the row carries |
| ExtMetrics.FillSubjectCurrent | elsametric/helpers/ext_source_metric_process.py:80-85 | the subject step raises what it raises on a source without a subject, whatever the subject table; it fails to raise that only for a source that has a subject and an 'asjc' column |
| ExtMetrics.ReadRow | elsametric/helpers/ext_source_metric_process.py:44-106 | row `i` raises exactly its `RowError` (id, new source's arguments, 'asjc' column, `int()` of the code), except when its stored source already has a subject; otherwise it yields a source with that id, covering the row's kinds, stored or fresh, and the stored one when the id is stored |
| ExtMetrics.IdRowsMembers | elsametric/helpers/ext_source_metric_process.py:44-49 | the rows listed as having an id are exactly the rows before the bound whose id reads as an int, in increasing order |
| ExtMetrics.ProgressNext | elsametric/helpers/ext_source_metric_process.py:44-106 | one row moves the loop on: it raises its `RowError`, or it is quiet and yields a source exactly when it has an id |
| ExtMetrics.RowStep | elsametric/helpers/ext_source_metric_process.py:44-106 | one pass of the row loop: the row's `RowError` escapes and nothing is yielded, or the row is quiet and yields one source exactly when it has an id; stored sources only grow |
| ExtMetrics.ReadRows | elsametric/helpers/ext_source_metric_process.py:44-106 | the row loop stops at the first row that raises or at the end, with a source yielded per row with an id before it |
| ExtMetrics.ProgressDone | elsametric/helpers/ext_source_metric_process.py:44-106 | when the loop stops, the exception is the stopping row's `RowError`, every row before it is quiet, and a file with no row that has an exception to raise is read to the end |
| ExtMetrics.ExtMetricProcess | elsametric/helpers/ext_source_metric_process.py:24-106 | the rows are read up to `stop`, the first row that raises (its `RowError` is the exception), or to the end; a file none of whose rows has a `RowError` is read to the end; the sources yielded are exactly one per row with an id before `stop`, in row order, each the stored source of that id or a fresh one, covering the row's metrics; stored sources only grow |
| ExtFaculty.NonEmpty | elsametric/helpers/ext_faculty_process.py:136-138 | the pieces of a split that the loops keep are no more than the pieces |
| ExtFaculty.NonEmptyMembers | elsametric/helpers/ext_faculty_process.py:136-138 | a piece is kept exactly when it occurs and is not empty |
| ExtFaculty.NonEmptyPrefix | elsametric/helpers/ext_faculty_process.py:157-159 | the pieces kept from a prefix are a prefix of the pieces kept |
| ExtFaculty.NullIdSkipped | elsametric/helpers/ext_faculty_process.py:88-90 | a row whose Scopus id cell holds a null marker is skipped whatever else it holds |
| ExtFaculty.NullDepartmentsSkipped | elsametric/helpers/ext_faculty_process.py:88-92 | a row with a Scopus id whose departments cell holds a null marker is skipped |
| ExtFaculty.FacultyIdFirst | elsametric/helpers/ext_faculty_process.py:94-96 | of several comma-separated Scopus ids the first is the one read |
| ExtFaculty.FirstPiece | elsametric/helpers/ext_faculty_process.py:96 | the first piece of `str(n) + ',' + rest` split on commas is `str(n)` |
| ExtFaculty.PreferredNames | elsametric/helpers/ext_faculty_process.py:106-112 | a preferred name is replaced only by a cell of the raw row that is present and not a null marker |
| ExtFaculty.PreferredName | elsametric/helpers/ext_faculty_process.py:106-112 | `get_key(row, k) or kept` keeps the old name exactly when the cell is missing or null |
| ExtFaculty.SexRule | elsametric/helpers/ext_faculty_process.py:115-117 | 'M' gives 'm', 'F' gives 'f', anything else keeps the sex, so the column's enum is kept |
| ExtFaculty.DetailsOutcome | elsametric/helpers/ext_faculty_process.py:104-132 | every row makes its author a faculty member; only a truthy retrieval time that is no integer raises, and then, or without a time, the Google Scholar metrics are kept |
| ExtFaculty.DetailedTwice | elsametric/helpers/ext_faculty_process.py:104-132 | reading the same row's details twice gives what reading them once gives |
| ExtFaculty.SetDetails | elsametric/helpers/ext_faculty_process.py:104-132 | the author's fields become the row's details as `Detailed` states, with its exception |
| ExtFaculty.SetScholar | elsametric/helpers/ext_faculty_process.py:121-132 | the Google Scholar time and metrics are set only for a truthy time that parses |
| ExtFaculty.EmailsOfPieces | elsametric/helpers/ext_faculty_process.py:136-140 | one email profile per non-empty piece, in order, its address the stripped piece |
| ExtFaculty.ThenStops | elsametric/helpers/ext_faculty_process.py:134-154 | a statement that raises stops the profiles: nothing after it is appended |
| ExtFaculty.ProfilesOk | elsametric/helpers/ext_faculty_process.py:134-154 | a row that raises nothing appends the email, phone, website and Google Scholar profiles in that order |
| ExtFaculty.ProfileCounts | elsametric/helpers/ext_faculty_process.py:134-154 | the profiles of a row hold one email per non-empty piece and one phone, website and Google Scholar profile each when that cell is truthy |
| ExtFaculty.ProfileCount | elsametric/helpers/ext_faculty_process.py:134-154 | the count of a kind is the sum over the four statements |
| ExtFaculty.CountKindAppend | elsametric/helpers/ext_faculty_process.py:139-154 | counts of a kind add up over appended profiles |
| ExtFaculty.CountEmails | elsametric/helpers/ext_faculty_process.py:136-140 | the email loop adds only email profiles, one per non-empty piece |
| ExtFaculty.ScholarAddress | elsametric/helpers/ext_faculty_process.py:149-154 | the Google Scholar profile is last and its address is the citations URL followed by the row's id |
| ExtFaculty.AddEmail | elsametric/helpers/ext_faculty_process.py:137-140 | the loop body appends the piece's email profile, or nothing for an empty piece |
| ExtFaculty.AddEmails | elsametric/helpers/ext_faculty_process.py:136-140 | the email loop appends exactly `Emails` of the pieces |
| ExtFaculty.AddProfiles | elsametric/helpers/ext_faculty_process.py:134-154 | the profiles become the old ones followed by `Profiles(row)`, and the exception is the first statement's that raises |
| ExtFaculty.AddEmailProfiles | elsametric/helpers/ext_faculty_process.py:135-140 | the email statement appends its profiles or raises |
| ExtFaculty.AddOptional | elsametric/helpers/ext_faculty_process.py:141-148 | the phone or website statement appends one profile for a truthy cell |
| ExtFaculty.AddScholar | elsametric/helpers/ext_faculty_process.py:149-154 | the Google Scholar statement appends one profile for a truthy id |
| ExtFaculty.FirstDepartmentAppend | elsametric/helpers/ext_faculty_process.py:160-163 | the lookup finds the first department with the abbreviation, searching departments appended later only when the earlier ones have none |
| ExtFaculty.FirstDepartmentNew | elsametric/helpers/ext_faculty_process.py:164-170 | a department created for an abbreviation nobody had is what later lookups of it find |
| ExtFaculty.Linked | elsametric/helpers/ext_faculty_process.py:157-172 | no more departments are linked than there are abbreviations |
| ExtFaculty.LinkedAllNamed | elsametric/helpers/ext_faculty_process.py:157-172 | when every abbreviation names a department, one department per abbreviation is linked, the institution's with that abbreviation |
| ExtFaculty.LinkedAppend | elsametric/helpers/ext_faculty_process.py:170 | departments appended to the institution later do not change what earlier lookups found |
| ExtFaculty.MissingNow | elsametric/helpers/ext_faculty_process.py:160-168 | a lookup that fails for an abbreviation the department map lacks is exactly a missing abbreviation, raising KeyError |
| ExtFaculty.CreatedSnoc | elsametric/helpers/ext_faculty_process.py:164-170 | a created department is the first with its abbreviation and stays so |
| ExtFaculty.CreateDepartment | elsametric/helpers/ext_faculty_process.py:164-170 | a fresh department with the abbreviation and the map's name and type is appended to the institution |
| ExtFaculty.LinkPiece | elsametric/helpers/ext_faculty_process.py:157-172 | one piece: found departments are linked, missing ones created from the map and linked, a piece the map lacks raises KeyError |
| ExtFaculty.LinkDepartments | elsametric/helpers/ext_faculty_process.py:157-172 | the loop raises KeyError exactly when some abbreviation is neither the institution's nor in the map; otherwise it links one department per non-empty piece and creates only fresh ones |
| ExtFaculty.RemoveFirst | elsametric/helpers/ext_faculty_process.py:179-180 | `list.remove` takes exactly one occurrence out, and nothing when there is none |
| ExtFaculty.FinalSnoc | elsametric/helpers/ext_faculty_process.py:87-182 | a row changes only the author it names |
| ExtFaculty.FinalAppend | elsametric/helpers/ext_faculty_process.py:160-172 | departments created by later rows do not change what earlier rows did |
| ExtFaculty.AddDetails | elsametric/helpers/ext_faculty_process.py:104-154 | the details and profiles of the row, with the first exception |
| ExtFaculty.LinkCell | elsametric/helpers/ext_faculty_process.py:156-180 | the departments the row names are linked, then one 'Undefined' department is unlinked; the exception is the departments cell's |
| ExtFaculty.UpdateFaculty | elsametric/helpers/ext_faculty_process.py:104-180 | the row's update of its faculty member, raising `RowError` |
| ExtFaculty.RowErrorSplit | elsametric/helpers/ext_faculty_process.py:104-180 | a row's exception is its details' or profiles', or else its departments' |
| ExtFaculty.UpdatedFrom | elsametric/helpers/ext_faculty_process.py:104-180 | the record, profiles and departments so written are the row's `Updated` state |
| ExtFaculty.TrackVisit | elsametric/helpers/ext_faculty_process.py:87-182 | the author a visited row names gets the row's update, any other keeps its state |
| ExtFaculty.TrackSkip | elsametric/helpers/ext_faculty_process.py:89-101 | a skipped row changes no author |
| ExtFaculty.TracksSkip | elsametric/helpers/ext_faculty_process.py:89-101 | a skipped row keeps every author's tracked state |
| ExtFaculty.Visit | elsametric/helpers/ext_faculty_process.py:88-182 | one pass has the row's outcome; when it does not raise the institution only gains fresh departments and every author tracks the rows so far |
| ExtFaculty.VisitFaculty | elsametric/helpers/ext_faculty_process.py:104-182 | a row whose faculty member is stored updates that author |
| ExtFaculty.ExtFacultyProcess | elsametric/helpers/ext_faculty_process.py:26-183 | the departments file is read first, and its exception is the call's, with no change; no institution: empty and no change; else the faculty of accepted rows in order or the first exception, the institution gains exactly the fresh created departments, every author is its old state updated by the rows naming it; the institution's country is unchanged |
| ExtFaculty.RunRows | elsametric/helpers/ext_faculty_process.py:87-183 | the row loop collects the outcomes and keeps the tracked states; it changes only the institution's departments, never its country |
| ExtFaculty.RunRow | elsametric/helpers/ext_faculty_process.py:87-182 | the loop body at row `i` |
| ExtFaculty.FacultiesInOrder | elsametric/helpers/ext_faculty_process.py:182 | every accepted row's faculty member is in the result at the position of the accepted rows before it, and is stored |
| ExtFaculty.FacultiesStored | elsametric/helpers/ext_faculty_process.py:97-101 | every author in the result is the stored faculty member of some row |
| ExtFaculty.FinalUnnamed | elsametric/helpers/ext_faculty_process.py:87-182 | an author no row names keeps its state |
| ExtFaculty.UpdatedDetails | elsametric/helpers/ext_faculty_process.py:104-154 | the row makes its member a faculty member with the row's details and appends the row's profiles |
| ExtFaculty.UpdatedDepartments | elsametric/helpers/ext_faculty_process.py:156-180 | each department other than 'Undefined' gains one link per naming abbreviation; 'Undefined', when present, loses one |
| ExtFaculty.CreatedNew | elsametric/helpers/ext_faculty_process.py:164-170 | no department the institution had shares an abbreviation with one the run created |
| ExtFaculty.CreatedOnce | elsametric/helpers/ext_faculty_process.py:164-170 | the run creates at most one department per abbreviation |
| Models.Country.constructor | elsametric/models/country.py:25-30 | the name, domain, region and sub-region are the arguments |
| Models.Subject.constructor | elsametric/models/subject.py:26-30 | the code and the three subject levels are the arguments |
| Models.Keyword.constructor | elsametric/models/keyword_.py:25-26 | the keyword is the argument |
| Models.Fund.constructor | elsametric/models/fund.py:27-31 | the Scopus id, agency and acronym are the arguments |
| Models.SourceUrl | elsametric/models/source.py:48 | the url is the Scopus source prefix followed by digits that read back as the source's id |
| Models.Source.constructor | elsametric/models/source.py:40-56 | the attributes are the arguments, the url is `SourceUrl` of the id, and there is no country, subject or metric yet |
| Models.Institution.constructor | elsametric/models/institution.py:49-68 | the Scopus id, name and city are the arguments; no country and no department yet |
| Models.Institution.AddDepartment | elsametric/helpers/ext_faculty_process.py:170 | the department is appended to the institution, its back reference set, nothing else changed |
| Models.Department.constructor | elsametric/models/department.py:53-67 | name, abbreviation and type are the arguments; no institution yet |
| Models.Shorten | elsametric/models/department.py:69-73 | a name of at most 50 characters is shown whole; a longer one as its first 47 characters and "..." (50 in all) |
| Models.InstitutionRepr | elsametric/models/institution.py:70-74 | a missing institution shows as "None"; otherwise the id, which reads back, then ": " and the name shortened to at most 50 characters; `len()` of a None or int name raises TypeError |
| Models.DepartmentRepr | elsametric/models/department.py:69-73 | `len()` of a None or int name raises TypeError first; otherwise the name shortened to at most 50 characters, " @ " and the institution's repr, whose TypeError escapes |
| Models.Author.constructor | elsametric/models/author.py:69-105 | the Scopus names are the arguments and the preferred names start as them; every other attribute is unset |
| Models.Paper.constructor | elsametric/models/paper.py:67-97 | the paper's fields are the arguments; no source, fund, keyword or author yet |
| Models.FindCountry | elsametric/helpers/ext_source_process.py:93-98 | the query by name finds a country exactly when a str name is stored, and then the stored one |
| Models.FirstDepartment | elsametric/helpers/ext_faculty_process.py:160-163 | `.first()` on the institution's departments: none exactly when no department matches, else the earliest that matches |
| Aggregates.SumAppend | elsametric/models/department.py:84 | `sum(d.values())` adds up over concatenated entries |
| Aggregates.Bump | elsametric/models/author.py:135-139 | `try: d[k] += n / except KeyError: d[k] = n` raises the total by `n` and keeps the first key |
| Aggregates.BumpKeys | elsametric/models/author.py:135-139 | a bumped key keeps its place; a new key goes last |
| Aggregates.BumpGet | elsametric/models/author.py:135-139 | bumping `k` changes the count of `k` and of no other key |
| Aggregates.WeightAppend | elsametric/models/author.py:132-141 | the weight of a key adds up over concatenated items |
| Aggregates.TalliedSpec | elsametric/models/author.py:132-141 | counting items: every key's count grows by its items' weight, keys stay distinct, and the keys are the old ones and the items' |
| Aggregates.TalliedAppend | elsametric/models/department.py:77-83 | counting two lists of items in turn is counting their concatenation |
| Aggregates.ItemsAppend | elsametric/models/department.py:77-83 | what the papers contribute adds up over concatenated paper lists |
| Aggregates.CountItems | elsametric/models/author.py:220-224 | the inner loop over what one paper contributes counts those items |
| Aggregates.CountPapers | elsametric/models/author.py:132-141 | the loop over an author's paper links counts what the papers contribute |
| Aggregates.CountMembers | elsametric/models/department.py:77-83 | the department's nested loop counts what all its members' papers contribute |
| Aggregates.AtLeast | elsametric/models/author.py:210-211 | a truthy threshold keeps exactly the entries whose count reaches it; a falsy one keeps the dict |
| Aggregates.Kept | elsametric/models/author.py:210-211 | the dict comprehension keeps exactly the entries whose count reaches the threshold |
| Aggregates.GetStored | elsametric/models/author.py:135-139 | in a dict, the count read for a key is the one stored with it |
| Aggregates.GetKeys | elsametric/models/author.py:135-139 | a key is present exactly when it is stored with its count |
| Aggregates.ThresholdSpec | elsametric/models/author.py:210-211 | with a truthy threshold a key survives exactly when its count reaches it, and keeps its count |
| Aggregates.SubjectItems | elsametric/models/author.py:217-226 | a paper without a source contributes no subject |
| Aggregates.FundKey | elsametric/models/author.py:256-258 | "NOT AVAILABLE" is counted as "unknown" and is never a key |
| Aggregates.PeelLast | elsametric/models/author.py:143-156 | the citation and link counts split off the last paper link |
| Aggregates.YearItemsSpec | elsametric/models/author.py:132-141 | the year items count, per year, the paper links of that year |
| Aggregates.CitationItemsSpec | elsametric/models/author.py:143-156 | the citation items add up, per year, the citations of that year's papers, a missing count as 0 |
| Aggregates.ItemsPeel | elsametric/models/author.py:132-141 | what the last paper link contributes splits off |
| Aggregates.OnesSpec | elsametric/models/author.py:200-207 | counting ones counts occurrences |
| Aggregates.OthersWeight | elsametric/models/author.py:200-207 | a paper's co-author items count its links to each author other than the excluded ones |
| Aggregates.OthersKeys | elsametric/models/author.py:200-207 | a paper's co-author items name exactly its linked authors other than the excluded ones |
| Aggregates.CoAuthorItemsSpec | elsametric/models/author.py:196-207 | co-author links are counted per author, never for the author itself |
| Aggregates.SubjectItemsSpec | elsametric/models/author.py:215-229 | a subject is counted once per paper link whose source has it |
| Aggregates.KeywordItemsSpec | elsametric/models/author.py:231-245 | a keyword text is counted once per use |
| Aggregates.TextsOnes | elsametric/models/author.py:236-241 | the keyword items of a paper are its keyword texts, one each |
| Aggregates.FundItemSpec | elsametric/models/author.py:252-266 | a fund agency is counted once per funded paper link, "NOT AVAILABLE" as "unknown" |
| Aggregates.NeverNotAvailable | elsametric/models/author.py:257-258 | no paper is counted under "NOT AVAILABLE" |
| Aggregates.PapersTrendSpec | elsametric/models/author.py:132-141 | the papers trend has each year of a paper link once, with its number of links; the values add up to the number of links |
| Aggregates.CitationsTrendSpec | elsametric/models/author.py:143-156 | the citations trend has each year once, with the citations of that year's papers; the values add up to all citations |
| Aggregates.CoAuthorsSpec | elsametric/models/author.py:196-213 | each linked author not excluded, with its number of links, kept only when it reaches a truthy threshold |
| Aggregates.SubjectsSpec | elsametric/models/author.py:215-229 | each subject of a paper's source once, with the number of paper links under it |
| Aggregates.KeywordsSpec | elsametric/models/author.py:231-250 | each keyword text once, with its uses, kept only when it reaches a truthy threshold |
| Aggregates.FundsSpec | elsametric/models/author.py:252-267 | "unknown" first and always there, then each agency of a funded paper with its paper count; never "NOT AVAILABLE" |
| Aggregates.AuthorPapersTrend | elsametric/models/author.py:132-141 | `get_papers_trend` as `PapersTrendSpec` states |
| Aggregates.AuthorCitationsTrend | elsametric/models/author.py:143-156 | `get_citations_trend` as `CitationsTrendSpec` states |
| Aggregates.AuthorCoAuthors | elsametric/models/author.py:196-213 | `get_co_authors`: never the author; every other author with at least one link (and reaching the threshold) with its number of links |
| Aggregates.AuthorSubjects | elsametric/models/author.py:215-229 | `get_subjects` as `SubjectsSpec` states |
| Aggregates.AuthorKeywords | elsametric/models/author.py:231-250 | `get_keywords` as `KeywordsSpec` states |
| Aggregates.AuthorFunds | elsametric/models/author.py:252-267 | `get_funds` as `FundsSpec` states |
| Aggregates.DepartmentPapersTrend | elsametric/models/department.py:75-85 | the trend over all members' paper links, its total the number of (member, paper) links |
| Aggregates.DepartmentCitationsTrend | elsametric/models/department.py:87-100 | the citations trend over all members' papers, its total all their citations |
| Aggregates.DepartmentCoAuthors | elsametric/models/department.py:139-157 | the authors the members' papers link to, never a member, with their link counts, reaching a truthy threshold |
| Aggregates.DepartmentSubjects | elsametric/models/department.py:159-174 | the subjects over all members' papers |
| Aggregates.DepartmentKeywords | elsametric/models/department.py:176-195 | the keywords over all members' papers, with the threshold |
| Aggregates.DepartmentFunds | elsametric/models/department.py:197-213 | the funds over all members' papers, "unknown" first |
| Aggregates.Trunc | elsametric/models/author.py:179 | `int(x)` of a float truncates toward zero |
| Aggregates.PercentileOf | elsametric/models/author.py:177-180 | none exactly when the source has no percentile of the paper's year; otherwise the first one, truncated |
| Aggregates.FindPercentile | elsametric/models/author.py:177-180 | the loop stops at the first percentile of the year |
| Aggregates.Slot | elsametric/models/author.py:182-184 | a list index in range reads that slot, a negative one from the end; anything else raises IndexError |
| Aggregates.BinOf | elsametric/models/author.py:172-187 | a paper without a source is passed over; an out-of-range percentile raises IndexError; the bin is always within the bins |
| Aggregates.Binned | elsametric/models/author.py:172-187 | binning keeps the number of bins |
| Aggregates.InBinLast | elsametric/models/author.py:172-187 | the count of a bin splits off the last paper link |
| Aggregates.BinnedSpec | elsametric/models/author.py:172-187 | binning raises IndexError exactly when some paper's percentile is out of range; otherwise each bin holds its papers |
| Aggregates.BinnedStops | elsametric/models/author.py:172-187 | once the walk has raised, later papers change nothing |
| Aggregates.BinnedAppend | elsametric/models/department.py:116-130 | binning two paper lists in turn is binning their concatenation |
| Aggregates.CountBins | elsametric/models/author.py:172-187 | the loop over an author's paper links bins them as `Binned` states |
| Aggregates.ExpandSpec | elsametric/models/author.py:189-193 | the histogram has one entry per counted paper and exactly the tags whose count is positive |
| Aggregates.ToHistogram | elsametric/models/author.py:189-193 | the histogram branch extends the result by each tag's copies |
| Aggregates.MetricsOf | elsametric/models/author.py:189-194 | the pairs, or with `histogram` the histogram; an exception passes through |
| Aggregates.Report | elsametric/models/author.py:189-194 | the end of `get_metrics` returns `MetricsOf` |
| Aggregates.AuthorMetrics | elsametric/models/author.py:169-194 | 100 percentile bins and 'Undefined'; raises IndexError exactly when a percentile is past the bins; otherwise each bin counts its papers |
| Aggregates.CountMemberBins | elsametric/models/department.py:116-130 | the department's loop over members bins all their paper links |
| Aggregates.DepartmentMetrics | elsametric/models/department.py:114-137 | 100 bins only; papers without a truthy percentile are not counted; percentile 100 raises IndexError |
| Aggregates.MemberPapersAppend | elsametric/models/department.py:77-78 | the members' paper links add up over concatenated member lists |
| Aggregates.AuthorInstitutions | elsametric/models/author.py:110-119 | the set of institutions of the author's departments; `total_institutions` is its size, at most the number of departments |
| Aggregates.CountriesAdd | elsametric/models/author.py:123-127 | adding an institution adds its country, and nothing for a missing one |
| Aggregates.AuthorCountries | elsametric/models/author.py:121-130 | the set of countries of the author's institutions; `total_countries` at most the number of institutions |
| Aggregates.AddSources | elsametric/models/author.py:160-164 | the loop adds each paper link's source |
| Aggregates.AuthorSources | elsametric/models/author.py:158-167 | the set of sources of the author's papers; `total_sources` at most the number of links |
| Aggregates.DepartmentSources | elsametric/models/department.py:102-112 | the set of sources of the members' papers |
| Helpers.EntryIssues | elsametric/helpers/helpers.py:61-63 | every issue for a missing second-level key carries the list's prefix |
| Helpers.ListIssues | elsametric/helpers/helpers.py:60-68 | the issues of every entry of a list carry its prefix |
| Helpers.SubIssues | elsametric/helpers/helpers.py:59-68 | the second-level issues of 'author' or 'affiliation' carry its prefix |
| Helpers.MissingOnce | elsametric/helpers/helpers.py:45-47 | a first-level key is reported missing at most once |
| Helpers.AuthorCountFacts | elsametric/helpers/helpers.py:45-76 | 'author-count' is reported at most once, exactly when it is missing or its '$' is missing or falsy |
| Keywords.TermsSpelled | elsametric/helpers/keyword_process.py:53-57 | each kept keyword is spelled as the first stripped piece that matches it |
| Keywords.TermsOrdered | elsametric/helpers/keyword_process.py:53-57 | the kept keywords come in the order of their first pieces |
| Keywords.DistinctCount | elsametric/helpers/keyword_process.py:51-57 | keywords that differ ignoring case are as many as their lower-cased forms in `unique_keys_set` |
| Importers.UsaAlias | elsametric/helpers/helpers.py:1-21 | `country_names('USA')` is 'United States' |
| Importers.DepartmentEntriesOk | elsametric/helpers/ext_department_process.py:6-29 | when the departments map is built, every row has an abbreviation, an English name and a type, and gives its entry |
| Authors.Affiliated | elsametric/helpers/author_process.py:100-111 | the afid values that give a department are no more than the values |
| Authors.LinkAffiliation | elsametric/helpers/author_process.py:105-111 | one afid: the 'Undefined' department of its institution is appended to the author's departments, the institution joins `new_institutions`, other institutions only as `institution_process` allows; it raises exactly `institution_process`'s exception, when there is one |
| Authors.OneLink | elsametric/helpers/author_process.py:105-111 | an affiliated id whose institution is found: the single link made lists exactly that id, its department is the institution's first department, and only that institution's state changes |
| Authors.KeepOnError | elsametric/helpers/author_process.py:76-113 | when an entry's processing raises, only the institutions reached have changed and every stored author keeps the profiles it had |
| Authors.LinkStep | elsametric/helpers/author_process.py:100-111 | a pass of the afid loop keeps the links made so far, and an escaping exception leaves institutions changed only as the loop allows |
| Authors.TakeEntry | elsametric/helpers/author_process.py:76-113 | an entry with a new id gives its row and links; the authors of earlier rows and other stored authors keep their state; it raises exactly when the entry's body can raise, one of those exceptions |
| Authors.AddEntry | elsametric/helpers/author_process.py:74-113 | a turn for a new id appends its row, its links and its departments; it raises exactly when the entry's body can raise, one of those exceptions |
| Authors.Visit | elsametric/helpers/author_process.py:62-113 | a turn skips an entry without an id or with a seen id, else adds its row; only the stored author of the id read can change; it raises exactly when reading the id, or the body for a new id, can raise, one of those exceptions |
| Authors.FinalRows | elsametric/helpers/author_process.py:62-114 | once every entry is visited, the rows are the kept entries' rows, with their links and their departments |
| Files.Triages | elsametric/helpers/file_process.py:80-114 | one verdict per entry so far, in order |

## Left out

- File, CSV and JSON reading (`open`, `json.load`, `get_row`) is not modelled. The operations take the loaded records or rows as parameters.
- `db.add`, `commit`, autoflush and cascades are not modelled. The session is a snapshot that no modelled operation writes. `Models.Store` is what the queries can find at the start of a call.
- `datetime` conversions are not modelled: the paper's retrieval time is a string parameter and the Google Scholar timestamp is checked only for `int()`. `token_generator`, the random `id_frontend`, is not modelled either.
- Exception messages are not modelled: `PyError` keeps only the exception class. The same goes for the 'error_msg' of a bad paper.
- The 'file' entry of the problems report (`file_path.relative_to(Path.cwd())`) is not modelled. `Files.FileProcess` returns the list of bad papers, or None where the source returns `{}`.
- JSON booleans and floats are not part of `Py.JsonVal`, because none of the modelled code reads one as such. Numbers are integers.
- PyStr.Lower: ASCII letters only, where Python's `str.lower` folds all of Unicode. Keyword deduplication in `Keywords.KeywordProcess` is therefore exact only for ASCII keywords.
- PyStr.ParseInt: ASCII digits only, where Python's `int()` accepts every Unicode decimal digit (Persian '۱۲۳' is 123). A cell or value written in other digits raises ValueError in the model, so `Py.PyInt` and every `int()` of a str built on it (a faculty row's 'Scopus ID' in `ExtFaculty.ExtFacultyProcess`, the ids read by the other processors) end with ValueError where Python reads the number.
- PyStr.ParseDecimal: plain decimals (sign, digits, one point) only, where Python's `float()` also accepts exponents, `inf`, `nan` and underscores. A metric cell in such a form is read as not a number.
- Models.DepartmentRepr: a list or dict name, whose `len()` Python takes before showing its repr, is not rendered: the model raises TypeError for it, as for a None or int name. `Models.InstitutionRepr` is the same for an institution's name.
- Aggregates.Trunc: a metric value is an exact real, not a binary float, so `int(met.value)` truncates the real.
- Helpers.Nullify: returns the new dict where Python replaces the values in place. The one later reader of the mutated entry, the error path of `file_process`, reads `Helpers.Nullified(entry)` explicitly.
- Importers.SubjectStored: SQL's comparison of the INTEGER column `Subject.asjc` with a str is modelled as Python's `int()` of the str.
- ExtSources.LinkSubjects: iterating a Python set visits its codes in an order the model leaves open, so the contract holds for every order. `Authors.LinkSet` and `Aggregates.AuthorCountries` are the same.
- ExtMetrics.PublisherCountry: which of several sources `.first()` returns is up to the database. The contract allows any of them.
- Authors.AuthorProcess: an author created for an entry is stated to be none of the stored authors, not `fresh`. Across entries the contract does not restate that earlier authors' department lists only grow; it gives each returned author's final departments instead.
- Authors.AuthorProcess: when the call raises, the exception is stated to be one of those a failing turn can raise (`Authors.RecordErrors`), not a single one, because the order in which a set of afid values is visited is left open.
- Papers.PaperProcess: an exception of `author_process` is likewise one of `Authors.RecordErrors`. `Papers.Complete`, `Papers.CompleteAuthors`, `Papers.ReadAuthors`, `Files.Visit` and `Files.FileProcess` state the same membership.
- Files.FileProcess: `helds[k]`, what the stored paper of entry `k` held, is tied to the heap only by `Files.Visit` in the round that visits the entry; the loop's contract does not restate it once later rounds have changed that paper.
- Aggregates.AuthorPapersTrend and the other statistics work on `PaperFacts`, a value snapshot of what the lazy relationships return (year, citations, source, fund, keywords, source metrics, co-authors). `get_year()` is not modelled: the year is part of the snapshot.
- Aggregates.DepartmentPapersTrend and the other methods that set a `total_*` attribute return the total instead of storing it on the object.
- The fuzzy matchers and exporters of the repository are not modelled (`helper_scripts/author_faculty_matcher.py` is not part of this model).
