# LinuxServer.io Discord cogs in Dafny

A model of the decision logic of three Discord bot plugins ("cogs"):

- **images**: the `image <name>` command. It replaces a requested name that contains `linuxserver/` by the name's second `/`-separated field, which strips the owner in the usual `linuxserver/<image>` form. It looks up the latest release and extracts the application version from the release's tag name. Two tag patterns are tried in order with Python's `re.match`: a three-digit Jenkins build number, then the `<version>-pkg-<8 hex>-ls<n>` packaging format. If neither matches, the version is `<unknown>`. The command then posts a rich embed, or an error message when anything in the lookup fails.
- **piracywarn**: a listener on every message. A server message is split on single spaces. If one of its words is exactly `seedbox`, `seed-box` or `piratebay`, the author gets one private warning naming the channel.
- **welcome**: the `readrules` command and the member-join greeting. `readrules` walks the member's roles. It sends one "already verified" message for every role named `verified`. When there is no such role, it adds the `verified` role and sends one confirmation. On join, a greeting goes to `new-members`, mentioning the member and the rules channel.

Framework calls are modelled as a sequence of `Effect` records: `SendDM`, `SendChannel`, `SendEmbed` and `AddRole` (`Discord.dfy`). Each handler is a function or method that returns the effects it issues, in order. Python's `str.split`, `in` on strings and `str.format` with `{}` fields are written out over `seq<char>` in `Text.dfy`, together with `Join`, the inverse of `Split` used to state the round trip. The two regular expressions are matched by hand in `Images.dfy`. The greedy `(.+)` is modelled as the regex engine's backtracking: capture lengths run from the end of the first line downward, and the first length after which the fixed suffix matches wins.

Files: `Wrappers.dfy` (Option), `Text.dfy`, `Discord.dfy`, `Images.dfy`, `PiracyWarn.dfy`, `Welcome.dfy`.

The piracy listener splits on the single character `' '`: tabs and newlines do not separate words, and runs of spaces give empty words. A failed send in `readrules` or `member_join` is not caught.

The version returned by `get_image_version` can be the literal `<unknown>` even when a pattern matched, namely when the capture itself is `<unknown>`. So "the version is `<unknown>`" does not imply "no pattern matched". `UnknownWhenNoPattern` states only the direction that holds.

## Model

| member | source | states |
|---|---|---|
| `Images.CleanImageName` | images/images.py:152-161 | a name without `linuxserver/` is returned unchanged; otherwise the result has no `/` and is the second `/`-separated field of the input (it starts right after the first `/` and runs to the next `/` or the end) |
| `Images.CleanIdempotent` | images/images.py:158-161 | cleaning twice equals cleaning once |
| `Images.CleanStripsOwner` | images/images.py:158-159 | `linuxserver/` followed by a name without `/` gives that name |
| `Images.CleanKeepsSecondField` | images/images.py:158-159 | with a registry in front (`reg/linuxserver/x`) the result is `linuxserver`, the second field, not the image |
| `Images.LineEnd` | images/images.py:57 | how far `.+` can reach: a prefix of the tag has no newline exactly when it is no longer than this length |
| `Images.Backtrack` | images/images.py:57 | the backtracking search returns a capture length after which `-pkg-[a-f0-9]{8}-ls[0-9]` matches, and no longer length up to its start does; `None` only when no length does |
| `Images.MatchPattern` | images/images.py:172-174 | a match's group is a non-empty prefix of the tag (`re.match` anchors at the start) |
| `Images.FirstMatch` | images/images.py:170-174 | the result is `None` exactly when no pattern matches; otherwise it is the group of some pattern before which every pattern failed |
| `Images.GetImageVersion` | images/images.py:163-176 | the returned version is never empty |
| `Images.BuildNumberFirst` | images/images.py:51-58 | a tag starting with three ASCII digits yields exactly those three characters, whatever follows |
| `Images.PackageVersionGreedy` | images/images.py:57 | without a leading build number, if some capture matches then the version is the longest non-empty newline-free prefix followed by `-pkg-`, eight lower-case hex digits, `-ls` and a digit |
| `Images.UnknownWhenNoPattern` | images/images.py:170-176 | when neither pattern matches at the start, the version is `<unknown>` |
| `Images.DigitsBeatPackage` | images/images.py:51-58 | `12345-pkg-0123abcd-ls7` matches both patterns and reports `123`: pattern order decides |
| `Images.TwoSuffixesTakeTheLast` | images/images.py:57 | for a tag made of a newline-free version and two packaging suffixes, both capture lengths match and the version is everything before the last suffix (`.+` is greedy) |
| `Images.CaptureIsGreedy` | images/images.py:57 | `1.0-pkg-0123abcd-ls7-pkg-89abcdef-ls8` reports `1.0-pkg-0123abcd-ls7` |
| `Images.TemplatesFill` | images/images.py:115-116 | the title and repository URL templates (and the error reply's template) each have one placeholder, and formatting puts the image name there |
| `Images.BuildEmbed` | images/images.py:104-127 | the embed exists exactly when there is no date or the date reformats; it is of type `rich` with author `LinuxServer.io`; title and URL are the templates filled with the image name; its note is set exactly when not migrated; its fields are "App Version" with the version and "Build Date" with the reformatted date or `None` |
| `Images.ImageCommand` | images/images.py:73-102 | ignored in a direct message; in a server exactly one reply, an embed or a text, to the invoking channel (which reply is fixed by `ImageAnswersOnce` and `ImageEmbedContents`) |
| `Images.ImageIgnoresDirectMessages` | images/images.py:81-83 | a command from a direct message produces no effects |
| `Images.ImageAnswersOnce` | images/images.py:85-102 | in a server exactly one reply goes to the invoking channel; it is the error message for the cleaned name exactly when the lookup, the tag name or the date fails |
| `Images.ImageEmbedContents` | images/images.py:87-97 | on success the reply is a `rich` embed by `LinuxServer.io` whose title and URL name the cleaned image, whose "App Version" field is `get_image_version` of the tag and whose "Build Date" field is the reformatted `published_at` or `None`; the note appears exactly when `published_at` is absent |
| `PiracyWarn.Flagged` | piracywarn/piracywarn.py:64-68 | some keyword is one of the space-separated words exactly when some keyword stands in the text as a whole word, between spaces or the ends |
| `PiracyWarn.Warnings` | piracywarn/piracywarn.py:62-71 | the listener's reference behaviour issues at most one action, a private warning to the author naming the channel |
| `PiracyWarn.WarningText` | piracywarn/piracywarn.py:41-44 | the warning is the fixed text with the channel name in its single placeholder |
| `PiracyWarn.WarningFill` | piracywarn/piracywarn.py:41-44 | the warning template has exactly one placeholder and `format` fills it with its argument |
| `PiracyWarn.OnMessage` | piracywarn/piracywarn.py:55-71 | the keyword loop with `break` issues exactly the reference effects (one warning to the author when a server message is flagged, else none), so at most one |
| `PiracyWarn.NoServerNoWarning` | piracywarn/piracywarn.py:60-62 | a direct message is never warned about |
| `PiracyWarn.WarnedIffKeywordWord` | piracywarn/piracywarn.py:64-71 | a warning is sent if and only if the message is in a server and some keyword stands in it as a whole space-delimited word; there is at most one, addressed to the author, naming the channel |
| `PiracyWarn.SingleWordFlaggedIff` | piracywarn/piracywarn.py:64-68 | a message without a space triggers if and only if it is exactly one of the keywords |
| `PiracyWarn.NearMissesNotFlagged` | piracywarn/piracywarn.py:64-68 | `seedboxes`, `Seedbox`, `seedbox,` and a keyword after a tab do not trigger: whole words, case-sensitive, only `' '` separates |
| `PiracyWarn.KeywordWordFlagged` | piracywarn/piracywarn.py:64-68 | `get a seedbox now` triggers |
| `PiracyWarn.KeywordAfterSpacesFlagged` | piracywarn/piracywarn.py:64-68 | `the  piratebay` (two spaces, so an empty word in between) triggers |
| `Welcome.ReadRulesEffects` | welcome/welcome.py:62-89 | the reference behaviour of `readrules`: nothing from a DM; in a server at least one action, every one a DM to or a role for the invoking member |
| `Welcome.ReadRules` | welcome/welcome.py:57-89 | the role loop with its flag issues exactly the reference effects: nothing from a DM, one "already verified" DM per role named `verified`, else the role then one confirmation |
| `Welcome.BaseRoleCount` | welcome/welcome.py:75-81 | the number of loop iterations that send a message (positions holding `verified`) equals the occurrence count of `verified` |
| `Welcome.ReadRulesIgnoresDirectMessages` | welcome/welcome.py:62-66 | invoked from a direct message, nothing happens |
| `Welcome.AlreadyVerifiedGetsNoRole` | welcome/welcome.py:74-81 | a member with a `verified` role gets no role and one "already verified" DM per such role (no `break`) |
| `Welcome.UnverifiedIsElevated` | welcome/welcome.py:83-89 | a member without it gets exactly: add role `verified`, then the confirmation DM |
| `Welcome.AddsOnlyBaseRole` | welcome/welcome.py:83-89 | the only role ever added is `verified`, at most once; whenever a role is added, the effects are exactly that role first and then the confirmation DM |
| `Welcome.DependsOnlyOnBaseRoleNames` | welcome/welcome.py:77 | two members whose role lists agree on which entries equal `verified` get the same effects |
| `Welcome.CapitalisedRoleDoesNotCount` | welcome/welcome.py:77 | a role named `Verified` does not count: the comparison is case-sensitive |
| `Welcome.FindChannel` | welcome/welcome.py:100-101 | the lookup by name returns the first channel with that name, and `None` exactly when no channel has it |
| `Welcome.MemberJoin` | welcome/welcome.py:91-103 | nothing is sent exactly when the `new-members` or the `rules` channel is missing; otherwise one message to `new-members` with the member's mention in the first placeholder and the rules channel's mention in the second |
| `Welcome.GreetingMentionsRulesChannel` | welcome/welcome.py:100-103 | with both channels present, the greeting mentions the first channel named `rules` |
| `Welcome.GreetingFill` | welcome/welcome.py:38 | the greeting template has exactly two placeholders, filled in order |
| `Text.Split` | piracywarn/piracywarn.py:64 | `split(sep)` yields at least one field and no field contains the separator |
| `Text.JoinSplit` | piracywarn/piracywarn.py:64 | joining the split fields with the separator reproduces the string, empty fields included |
| `Text.SplitJoin` | piracywarn/piracywarn.py:64 | splitting a join of separator-free fields gives them back, so a split is exactly the separator-free fields whose join is the string |
| `Text.FieldIff` | piracywarn/piracywarn.py:64-68 | a separator-free word is among the fields of `s` if and only if it occurs in `s` bounded by separators or the ends |
| `Text.SplitCount` | images/images.py:158-159 | there are at least two fields exactly when the separator occurs, so `split('/')[1]` exists whenever `linuxserver/` does |
| `Text.Format` | piracywarn/piracywarn.py:70 | a template without replacement fields formats to itself |
| `Text.FormatFill` | piracywarn/piracywarn.py:70 | in `a + "{}" + b` with no `{` in `a`, the first argument lands exactly between `a` and `b` |
| `Text.FormatOne` | images/images.py:115-116 | a `{`-free text around one `{}` formats to that text with the argument in place |
| `Text.FormatTwo` | welcome/welcome.py:103 | a `{`-free text around two `{}` formats with the two arguments in order |

## Left out

- The GitHub release lookup is not modelled: the HTTP calls, `raise_for_status`, JSON decoding and the fallback to the first tag (images/images.py:129-150). The command takes it as a function parameter `fetch`. `None` stands for any exception on that path, and the result holds only the `name` and `published_at` keys.
- Date reformatting with `strptime`/`strftime` (images/images.py:122) is a library call. It is the parameter `reformat`, with `None` for a date that does not parse.
- The embed's colour (`discord.Colour.orange()`) is a framework constant and is left out. The embed type `rich`, the author and the two fields are modelled.
- The constants `MESSAGE_RELEASE`, `MESSAGE_TAG` and the two date formats are not modelled. The commands never use the two messages.
- `server.get_member` and `discord.utils.get` for the base role are not modelled: the invoking member (with its role names) and the author's identifier are inputs, and a role lookup that returns `None` is framework behaviour. The channel lookups of `member_join` are modelled (`FindChannel`), on the framework's behaviour that sending to `None` raises; the channel and member mentions are inputs.
- A send that itself fails is not modelled; the handlers' effects are the sends they issue.
- `async`/`await` scheduling, listener and cog registration in `setup`, and all logging are not modelled.
- Text.Format: models only the automatically numbered `{}` field. It does not model `{{`/`}}` escapes, numbered or named fields, format specs, or the errors Python raises on a malformed template. Its precondition excludes the `IndexError` for too few arguments. None of the cogs' templates uses the other forms.
- Images.ImageAnswersOnce: the error path covers only failures of the lookup, the tag name and the date. A failure of the send itself is not modelled.
