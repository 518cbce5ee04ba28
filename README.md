# contributors — a Dafny model of configuration parsing and per-repository contributor collection

The modelled program is a GitHub Action. It reads its configuration from
environment variables, lists the repositories of an organization (or a given
list of `owner/name` repositories), and collects the contributors of each
repository, optionally limited to a date range. It then merges the
per-repository lists and writes Markdown and JSON reports.

This project models two parts of it:

* **Configuration (`env.py`)** — module `Env` in `env.dfy`, written as pure
  functions over the environment. The environment is a map from the
  thirteen variables the program reads (the datatype `Variable`, with
  `Env.Name` giving each one's name) to their values; a missing key is an
  unset variable. It covers `get_bool_env_var`,
  `get_int_env_var`, `validate_date_format` and `get_env_vars`. Each
  `raise ValueError` becomes an `Err` of `ConfigError`, and `Env.Message`
  gives the text of each one.
* **Contributor collection (`contributors.py`)** — module `Contributors` in
  `contributors.dfy`. Its code is imperative, and so is the model:
  `GetContributors`, `ResolveRepositories` and `CollectPerRepo` are methods
  with loops, and `GetAllContributors` is a method that calls the last two
  and then `merge`. Each loop is proved equal to a specification function
  (`Harvest`, `RepositorySource`, `PerRepoLists`), and lemmas state what
  those functions mean.

The API enters as plain inputs:

* A `Repository` is an object with four fields: its full name, its fork
  flag, its contributor listing and its commit probe.
  * The listing is the sequence of steps that iterating `repo.contributors()`
    goes through. Each step is a user, or an error raised by the API
    (`FetchError`).
  * The commit probe says what `next(repo.commits(author, since, until))`
    does: it yields a commit, raises `StopIteration`, or raises another error.
* A `Connection` maps an organization to its repositories and an owner/name
  pair to a repository.
* `contributor_stats.merge_contributors` is a function parameter of
  `GetAllContributors`. Its source is not part of this model.

Helper modules: `Wrappers` (`Option`, `Result`) and `Text`. `Text` holds
Python's string behaviour: `isspace`, `strip`, ASCII `lower`, substring `in`,
`split` on one character, `join`, and decimal digits.

Modelling choices:

* Whitespace is Python's full `str.isspace()` set.
* `int()` is modelled on ASCII signed decimals with surrounding whitespace.
  It skips the `str.isspace()` characters except the four ASCII separators
  U+001C..U+001F, which `int()` does not skip; a value holding one of them is
  no integer. As in CPython 3.11 and later, more than 4300 digits
  (`Env.MaxStrDigits`, the default integer string conversion limit) make
  `int()` fail.
* `strptime(s, "%Y-%m-%d")` is modelled with its real leniency. The year must
  have four digits and be at least 1. The month may have one or two digits.
  The day may be one or two digits, or a space and one digit. The date must
  exist on the calendar, so February 29 is accepted only in Gregorian leap
  years.

## Model

| member | source | states |
|---|---|---|
| `Text.TrimStart` | env.py:26 | `lstrip()`: the result is a suffix of the input, what it cuts off is whitespace only, and it does not start with whitespace |
| `Text.TrimEnd` | env.py:26 | `rstrip()`: the result is a prefix of the input, what it cuts off is whitespace only, and it does not end with whitespace; `Text.Strip` is `TrimEnd` after `TrimStart` |
| `Text.Lower` | env.py:26 | `lower()` keeps the length and lower-cases each ASCII letter in place, leaving every other character as it is |
| `Text.StripEnds` | env.py:26 | the result of `strip()` neither starts nor ends with whitespace |
| `Text.StripEmptyIff` | env.py:39 | `strip()` gives the empty string exactly when the value is whitespace only |
| `Text.StripIsTrimmedSlice` | env.py:26 | the result of `strip()` is a slice of the input with only whitespace cut off on either side |
| `Text.StripPadded` | env.py:143 | stripping any whitespace padding around a word gives the word back |
| `Text.Split` | env.py:156 | `split(sep)` gives one more piece than there are separators, and no piece contains the separator |
| `Text.JoinSplit` | env.py:155-157 | joining the pieces of a split with the separator gives back the original string |
| `Text.SplitJoin` | contributors.py:136 | splitting pieces that were joined with the separator (and contain no separator) gives the pieces back |
| `Env.NamesDistinct` | env.py:116-150 | distinct variables are looked up under distinct names |
| `Env.GetBoolEnvVar` | env.py:13-26 | an unset or empty variable gives the default; any other value is true exactly when, stripped and lower-cased, it reads "true" |
| `Env.BoolWhitespaceOnlyIsFalse` | env.py:23-26 | a non-empty, whitespace-only value gives false, even when the default is true |
| `Env.BoolAcceptsPaddedTrue` | env.py:26 | "true" in any letter case, with any whitespace around it, gives true |
| `Env.DecimalLiteral` | env.py:42 | an unpadded literal has a value exactly when it is an optional sign followed by one to 4300 ASCII digits |
| `Env.ParseInt` | env.py:41-44 | an integer comes back exactly when the value holds no U+001C..U+001F separator and its stripped text is an optional sign followed by one to 4300 digits; otherwise `None` |
| `Env.ParseIntPadded` | env.py:41-44 | for any padding made of the whitespace `int()` skips, around a literal that neither starts nor ends with such whitespace, the result is the literal's value; every string splits this way, so this fixes `ParseInt` on all inputs |
| `Env.SeparatorPaddingRefused` | env.py:41-44 | a U+001C separator before a number is removed by `strip()`, yet `int()` refuses the value |
| `Env.TooManyDigitsRefused` | env.py:41-44 | a value of more than 4300 digits is refused, whatever the digits |
| `Env.ParseIntRoundTrip` | env.py:41-44 | the decimal rendering of any integer of at most 4300 digits, padded with whitespace `int()` skips, parses back to that integer |
| `Env.GetIntEnvVar` | env.py:29-44 | `None` when the variable is unset or whitespace-only; otherwise the result of `int()` on the value, with `None` for a bad number |
| `Env.ParseDate` | env.py:63-69 | every date the parser accepts is a real calendar date: year 1 to 9999, month 1 to 12, and a day within the month's length |
| `Env.ParseDateMeaning` | env.py:63-69 | the parser returns a date exactly when the string is a year field, a month field and a day field joined by two dashes, the fields' values are that date's, and the date exists on the calendar; every other string is refused |
| `Env.ParseFormattedFields` | env.py:63-69 | a `YYYY-MM-DD` string whose fields are in range parses to exactly those fields when they form a calendar date, and is refused otherwise |
| `Env.ParseFormatRoundTrip` | env.py:63-70 | the `YYYY-MM-DD` rendering of every calendar date parses back to the same date |
| `Env.LeapDayAccepted` | env.py:65 | February 29 is accepted exactly in leap years |
| `Env.DayBeyondMonthRefused` | env.py:65-69 | a day past the end of its month is refused |
| `Env.ShortFieldsAccepted` | env.py:63-65 | a one-digit month is accepted, and so is a day written as one digit or as a space and one digit |
| `Env.DateMessagesDistinct` | env.py:67-69 | the date-format messages of two different variables differ, so the message names the offending variable |
| `Env.MessagesDistinct` | env.py:119-141 | the four error messages are pairwise different, so each raised error can be told apart by its text |
| `Env.ValidateDateFormat` | env.py:47-70 | an unset or empty variable gives ""; a valid date is returned unchanged; anything else is an error naming the variable |
| `Env.ValidateFormattedDate` | env.py:58-70 | a variable holding the `YYYY-MM-DD` rendering of a calendar date is accepted as it is |
| `Env.SplitRepositories` | env.py:152-157 | an unset or empty REPOSITORY gives an empty list; otherwise there is one stripped entry per comma-separated piece (number of commas plus one), in order |
| `Env.ReadConfigFields` | env.py:116-157 | the configuration read strips the enterprise URL, which is then empty exactly when GH_ENTERPRISE_URL is blank and otherwise neither starts nor ends with whitespace; the organization, the token, the private key and both dates are kept as given ("" when unset); the two IDs are read with `get_int_env_var` |
| `Env.AccessError` | env.py:116-141 | the target and credential checks in the source's order: no ORGANIZATION and no REPOSITORY is the first error; then a non-zero app ID without a private key or without a non-zero installation ID; then no credential at all. No error exactly when none of the three applies |
| `Env.GetEnvVars` | env.py:73-173 | an access error is returned first, then a bad START_DATE, then a bad END_DATE. Success happens exactly when none of these applies, and then every field of the result is the value read for it (`ReadConfig`: the stripped `ghe`, the split repository list, the flags with their defaults) |
| `Env.ConfigDefaults` | env.py:148-150 | when these flags are unset, the configuration read (the one a successful `get_env_vars` returns) has `include_forks` on and `sponsor_info` and `link_to_profile` off |
| `Env.ZeroAppIdIsNoApp` | env.py:124-141 | a `GH_APP_ID` of "0" counts as no app ID, so a token alone passes the credential checks |
| `Contributors.Endpoint` | contributors.py:187 | the host of the links is the enterprise URL when one is given and https://github.com otherwise; it is never empty |
| `Contributors.CommitUrl` | contributors.py:188-191 | the link starts with the author query on the repository's commit page, `endpoint/full_name/commits?author=login`; it has nothing more when a date is missing, and exactly `&since=S&until=E` more when both are set |
| `Contributors.Examine` | contributors.py:169-199 | one pass of the loop body raises exactly for a listing error or for a failed commit query of a non-bot user with both dates set; it keeps a record exactly for a wanted user, and that record is the one built from the user |
| `Contributors.GetContributors` | contributors.py:154-206 | the loop's result equals the specification `Harvest` of the repository's listing |
| `Contributors.HarvestFailureSticks` | contributors.py:201-204 | once an error is raised partway through, the whole result is `None` |
| `Contributors.HarvestFailsIff` | contributors.py:168-204 | the result is `None` exactly when some step raises: a listing error, or a failed commit query for a non-bot user when both dates are set. The result is never a partial list |
| `Contributors.HarvestSucceeds` | contributors.py:169-200 | when no step raises, the result is one record per wanted user, in listing order |
| `Contributors.ContributorRecords` | contributors.py:170-199 | no record's username contains "[bot]"; every record has `new_contributor` false and sponsor info ""; every commit URL is `endpoint/full_name/commits?author=login`, with `&since=S&until=E` appended exactly when both dates are set, where the endpoint is `ghe` when given and https://github.com otherwise |
| `Contributors.ContributorSelection` | contributors.py:169-200 | the kept users are a subsequence of the listing's users; a user of the listing has a record exactly when it is not a bot and, if both dates are set, the range query finds a commit |
| `Contributors.KeptUsersSubsequence` | contributors.py:169-184 | the users kept by the filter appear in the same order as in the listing |
| `Contributors.ResolveRepositories` | contributors.py:130-138 | the loop's result equals the specification `RepositorySource`: the organization's repositories when an organization is named, the listed ones otherwise |
| `Contributors.ResolveListMeaning` | contributors.py:133-138 | resolving succeeds exactly when every entry holds exactly one "/". It then gives one repository per entry, in order, looked up by the entry's owner and name. Otherwise the error names the first malformed entry |
| `Contributors.CollectPerRepo` | contributors.py:140-146 | the loop's result equals the specification `PerRepoLists` |
| `Contributors.PerRepoListsAppend` | contributors.py:141-146 | the lists for two runs of repositories are the lists for the first run followed by the lists for the second, so repository order is kept |
| `Contributors.PerRepoListsMeaning` | contributors.py:141-146 | every collected list is non-empty and is the successful result of an included repository (a non-fork, or any repository with `include_forks`). Every such repository with a non-empty result is collected |
| `Contributors.ForksSkipped` | contributors.py:143 | without `include_forks`, fork repositories contribute nothing |
| `Contributors.GetAllContributors` | contributors.py:107-151 | a malformed repository entry is an error; otherwise the result is `merge` applied to the per-repository lists of the chosen repositories |

## Left out

- The `.env` file and `os.environ` (env.py:112-114): the environment is a map parameter, already holding whatever `load_dotenv` would add. It holds only the thirteen variables the program reads. The only other variable that can change the result is PYTHONINTMAXSTRDIGITS, which sets the digit limit of `int()`; see `Env.ParseInt` below.
- `load_dotenv` and the `test` flag of `get_env_vars`: loading a file is I/O.
- The UTF-8 encoding of the private key (env.py:125): the key is kept as a string. Only whether it is empty matters to the checks, and that is the same for the string and its bytes.
- Environment values that are not valid UTF-8: `os.environ` decodes such bytes into lone surrogates, on which `.encode("utf8")` at env.py:125 raises `UnicodeEncodeError`. A Dafny string cannot hold a lone surrogate, so the model has no such value and no such error.
- `Env.ParseInt`: Python's `int()` also accepts underscores between digits and non-ASCII decimal digits. The model accepts ASCII digits only.
- `Env.ParseInt`: the digit limit is fixed at its default of 4300. Changing it through PYTHONINTMAXSTRDIGITS, `-X int_max_str_digits` or `sys.set_int_max_str_digits` is not modelled. Neither are Python versions without the limit (before 3.11 and 3.10.7), where `int()` takes any number of digits.
- `Env.ParseDate`: `strptime`'s `\d` also matches non-ASCII digits. The model accepts ASCII digits only.
- `Text.Lower`: only ASCII letters are lower-cased. For the one use here, the comparison with "true", this gives the same answer as Python's full `lower()`.
- The `contributor_stats` module is not part of this model: `merge_contributors`, `is_new_contributor`, `get_sponsor_information` and the `ContributorStats` class. `merge` is a parameter, and `ContributorStats` is a record of its six constructor arguments.
- Authentication and the GitHub client (`auth`, `github3` objects): the API is given as the `Connection` and `Repository` inputs.
- Errors raised by the API outside the per-user loop are not modelled. This covers `organization(...).repositories()`, `repository(owner, name)` and the call to `repo.contributors()` itself, which happens before the `try` block and is lazy. The model takes those calls to succeed.
- The `print` calls in the error path (contributors.py:202-203): they are output only.
- `main` (contributors.py:13-104) only wires the pieces together and writes the reports through modules that are not part of this model. Two of its details are not modelled:
  - It compares the boolean `sponsor_info` with the string `"true"` (contributors.py:78), so the sponsor step never runs.
  - When both dates are set, it runs a second collection over the range from "2008-02-29" to `start_date` to classify new and returning contributors.
- The unit tests: they call `get_contributors` and `get_all_contributors` with fewer arguments than the functions take, so they state nothing about the current code.
