/**
 The image cog (images/images.py): `image <name>` looks up the latest release
 of a LinuxServer.io Docker image, extracts the application version from the
 release's tag name, and posts a rich embed about it to the channel.

 The release lookup (two HTTP calls and JSON decoding) and the reformatting of
 the publication date are passed in as functions; `None` from either stands for
 the exception that the command's `try` turns into an error message.
 */
module Images {
  import opened Wrappers
  import opened Text
  import opened Discord

  // ---------------------------------------------------------------------------
  // Fixed texts

  /** The owner prefix a user may type in front of the image name. */
  const LSIO_PREFIX: string := "linuxserver/"

  /** `GITHUB_REPO_URL`: the image's repository, `{}` standing for the image name. */
  const GITHUB_REPO_URL: string := REPO_URL_HEAD + "{}"
  const REPO_URL_HEAD: string := "https://github.com/" + "linuxserver/docker-"

  /** The embed title, `{}` standing for the image name. */
  const EMBED_TITLE: string := EMBED_TITLE_HEAD + "{}"
  const EMBED_TITLE_HEAD: string := "Image information for "

  /** The error reply, `{}` standing for the image name. */
  const RETRIEVE_ERROR: string := RETRIEVE_ERROR_HEAD + "{}" + "**"
  const RETRIEVE_ERROR_HEAD: string := "Unable to retrieve version " + "information for **"

  const NOT_MIGRATED_NOTE: string := "_Note:_ This image has not yet been migrated to the new pipeline."
  const EMBED_AUTHOR: string := "LinuxServer.io"
  const UNKNOWN_VERSION: string := "<unknown>"

  // ---------------------------------------------------------------------------
  // clean_image_name

  /**
   `f` is the second `sep`-separated field of `s`: it starts right after the
   first separator and runs to the next separator or the end.
   */
  predicate SecondField(s: string, sep: char, f: string) {
    exists i :: 0 <= i < |s| && s[i] == sep && sep !in s[..i] && FieldAt(s, sep, f, i + 1)
  }

  /**
   `clean_image_name`: a name that mentions `linuxserver/` is replaced by its
   second `/`-separated field; any other name is kept as typed.
   */
  function CleanImageName(imageName: string): (image: string)
    ensures !Contains(imageName, LSIO_PREFIX) ==> image == imageName
    ensures Contains(imageName, LSIO_PREFIX) ==> '/' !in image && SecondField(imageName, '/', image)
  {
    if Contains(imageName, LSIO_PREFIX) then
      ContainsChar(imageName, LSIO_PREFIX, 11);
      SecondFieldOfSplit(imageName, '/');
      Split(imageName, '/')[1]
    else imageName
  }

  /** A character of an occurring substring occurs in the string. */
  lemma ContainsChar(s: string, sub: string, k: nat)
    requires Contains(s, sub) && k < |sub|
    ensures sub[k] in s
  {
    var i :| 0 <= i <= |s| - |sub| && OccursAt(s, sub, i);
    assert s[i..i + |sub|][k] == s[i + k];
  }

  /** With a separator present, field 1 of the split is the second field. */
  lemma SecondFieldOfSplit(s: string, sep: char)
    requires sep in s
    ensures |Split(s, sep)| >= 2
    ensures SecondField(s, sep, Split(s, sep)[1])
  {
    var h := FirstFieldEnds(s, sep);
    var r := s[|h| + 1..];
    SplitAfterField(h, r, sep);
    var tail := HeadFieldRest(r, sep);
    var f := Split(r, sep)[0];
    assert s == h + [sep] + f + tail by {
      assert s == h + [sep] + r && r == f + tail;
    }
    SecondFieldOfParts(h, f, tail, sep);
  }

  /** When the separator occurs, the first field is followed by a separator. */
  lemma FirstFieldEnds(s: string, sep: char) returns (h: string)
    requires sep in s
    ensures h == Split(s, sep)[0] && sep !in h
    ensures |h| < |s| && s == h + [sep] + s[|h| + 1..]
  {
    h := Split(s, sep)[0];
    assert h in Split(s, sep);
    SplitHead(s, sep);
    var p :| 0 <= p < |s| && s[p] == sep;
    NotSepAt(h, sep, p);
    assert s == s[..|h|] + [s[|h|]] + s[|h| + 1..];
  }

  /** The first field of `r` is followed by nothing or by a separator. */
  lemma HeadFieldRest(r: string, sep: char) returns (tail: string)
    ensures sep !in Split(r, sep)[0]
    ensures r == Split(r, sep)[0] + tail && (tail == [] || tail[0] == sep)
  {
    var f := Split(r, sep)[0];
    assert f in Split(r, sep);
    SplitHead(r, sep);
    tail := r[|f|..];
    assert r == r[..|f|] + r[|f|..];
  }

  /** In `t + sep + f + tail`, with `tail` empty or starting with `sep`, `f` is the second field. */
  lemma SecondFieldOfParts(t: string, f: string, tail: string, sep: char)
    requires sep !in t && sep !in f
    requires tail == [] || tail[0] == sep
    ensures SecondField(t + [sep] + f + tail, sep, f)
  {
    var s := t + [sep] + f + tail;
    var i := |t|;
    assert s[i] == sep && s[..i] == t;
    assert s[i + 1..i + 1 + |f|] == f;
    if tail != [] {
      assert s[i + 1 + |f|] == tail[0];
    }
    assert FieldAt(s, sep, f, i + 1);
  }

  /** Cleaning is idempotent: a cleaned name has no `/`, so it is kept as it is. */
  lemma CleanIdempotent(imageName: string)
    ensures CleanImageName(CleanImageName(imageName)) == CleanImageName(imageName)
  {
    var image := CleanImageName(imageName);
    if Contains(imageName, LSIO_PREFIX) {
      assert LSIO_PREFIX[11] == '/';
      NoSepNoContains(image, LSIO_PREFIX, '/');
    }
  }

  /** The usual case: `linuxserver/` followed by a plain image name gives that name. */
  lemma CleanStripsOwner(name: string)
    requires '/' !in name
    ensures CleanImageName(LSIO_PREFIX + name) == name
  {
    var s := LSIO_PREFIX + name;
    assert OccursAt(s, LSIO_PREFIX, 0);
    assert s == "linuxserver" + ['/'] + name;
    assert '/' !in "linuxserver";
    SplitAfterField("linuxserver", name, '/');
    SplitNoSep(name, '/');
  }

  /**
   Only the second field survives: a registry in front of the owner, as in
   `docker.io/linuxserver/sonarr`, makes the result the owner `linuxserver`
   itself rather than the image.
   */
  lemma CleanKeepsSecondField(registry: string, name: string)
    requires '/' !in registry && '/' !in name
    ensures CleanImageName(registry + "/" + LSIO_PREFIX + name) == "linuxserver"
  {
    var s := registry + "/" + LSIO_PREFIX + name;
    assert s == registry + ['/'] + ("linuxserver" + ['/'] + name);
    assert OccursAt(s, LSIO_PREFIX, |registry| + 1);
    assert '/' !in "linuxserver";
    SplitNoSep(name, '/');
    SplitAfterField("linuxserver", name, '/');
    SplitAfterField(registry, "linuxserver" + ['/'] + name, '/');
  }

  // ---------------------------------------------------------------------------
  // get_image_version: the two tag patterns, tried in order with `re.match`

  predicate IsAsciiDigit(c: char) {
    '0' <= c <= '9'
  }

  predicate IsLowerHex(c: char) {
    '0' <= c <= '9' || 'a' <= c <= 'f'
  }

  /** The entries of `VERSION_PATTERNS`. */
  datatype VersionPattern =
    | BuildNumber     // `([0-9]{3})`: the original Jenkins build number
    | PackageVersion  // `(.+)-pkg-[a-f0-9]{8}-ls[0-9]+`: the packaging version format

  const VERSION_PATTERNS: seq<VersionPattern> := [BuildNumber, PackageVersion]

  /** `([0-9]{3})` matches at the start: the first three characters are ASCII digits. */
  predicate StartsWithBuildNumber(tag: string) {
    |tag| >= 3 && IsAsciiDigit(tag[0]) && IsAsciiDigit(tag[1]) && IsAsciiDigit(tag[2])
  }

  /** `-pkg-[a-f0-9]{8}-ls[0-9]+` matches at index `k` (trailing characters are allowed). */
  predicate PackageSuffixAt(tag: string, k: nat) {
    k + 17 <= |tag|
    && tag[k..k + 5] == "-pkg-"
    && (forall i :: k + 5 <= i < k + 13 ==> IsLowerHex(tag[i]))
    && tag[k + 13..k + 16] == "-ls"
    && IsAsciiDigit(tag[k + 16])
  }

  /**
   The packaging pattern matches with `(.+)` capturing `tag[..k]`: the capture
   is non-empty, holds no newline (`.` does not match one) and is followed by
   the fixed suffix.
   */
  predicate PackageCaptureAt(tag: string, k: nat) {
    1 <= k <= |tag| && '\n' !in tag[..k] && PackageSuffixAt(tag, k)
  }

  /** How far `.+` can reach: the length of the first line of `tag`. */
  function LineEnd(tag: string): (n: nat)
    ensures n <= |tag|
    ensures forall k: nat :: k <= |tag| ==> ('\n' !in tag[..k] <==> k <= n)
  {
    var line := Split(tag, '\n')[0];
    SplitHead(tag, '\n');
    assert line in Split(tag, '\n');
    forall k: nat | k <= |tag|
      ensures '\n' !in tag[..k] <==> k <= |line|
    {
      if k <= |line| {
        assert tag[..k] == line[..k];
        assert forall c :: c in line[..k] ==> c in line;
      } else {
        assert tag[..k][|line|] == '\n';
      }
    }
    |line|
  }

  /**
   Backtracking over the greedy `(.+)`: capture lengths are tried from `k`
   down to 1 and the first one after which the suffix matches wins.
   */
  function Backtrack(tag: string, k: nat): (r: Option<nat>)
    requires k <= LineEnd(tag)
    ensures r.Some? ==> r.value <= k && PackageCaptureAt(tag, r.value)
    ensures r.Some? ==> forall m: nat :: r.value < m <= k ==> !PackageCaptureAt(tag, m)
    ensures r.None? ==> forall m: nat :: m <= k ==> !PackageCaptureAt(tag, m)
    decreases k
  {
    if k == 0 then None
    else if PackageSuffixAt(tag, k) then Some(k)
    else Backtrack(tag, k - 1)
  }

  /** `re.match(pattern, tag)`, giving group 1 when it matches. */
  function MatchPattern(p: VersionPattern, tag: string): (group: Option<string>)
    ensures group.Some? ==> 1 <= |group.value| <= |tag| && group.value == tag[..|group.value|]
  {
    match p
    case BuildNumber =>
      if StartsWithBuildNumber(tag) then Some(tag[..3]) else None
    case PackageVersion =>
      match Backtrack(tag, LineEnd(tag))
      case Some(k) => Some(tag[..k])
      case None => None
  }

  /** The loop over the patterns: the group of the first pattern that matches. */
  function FirstMatch(patterns: seq<VersionPattern>, tag: string): (r: Option<string>)
    ensures r.None? <==> forall i :: 0 <= i < |patterns| ==> MatchPattern(patterns[i], tag).None?
    ensures r.Some? ==> exists i :: 0 <= i < |patterns| && r == MatchPattern(patterns[i], tag)
                                  && forall j :: 0 <= j < i ==> MatchPattern(patterns[j], tag).None?
  {
    if |patterns| == 0 then None
    else
      match MatchPattern(patterns[0], tag)
      case Some(v) => Some(v)
      case None =>
        var r := FirstMatch(patterns[1..], tag);
        assert forall i :: 0 < i < |patterns| ==> patterns[i] == patterns[1..][i - 1];
        r
  }

  /** `get_image_version`: the version in a release's tag name, or `<unknown>`. */
  function GetImageVersion(tag: string): (version: string)
    ensures version != ""
  {
    match FirstMatch(VERSION_PATTERNS, tag)
    case Some(v) => v
    case None => UNKNOWN_VERSION
  }

  /**
   The build-number pattern is tried first: a tag starting with three digits
   yields exactly those three, whatever follows and even when the packaging
   pattern would match too.
   */
  lemma BuildNumberFirst(tag: string)
    requires StartsWithBuildNumber(tag)
    ensures GetImageVersion(tag) == tag[..3]
  {
    assert MatchPattern(VERSION_PATTERNS[0], tag) == Some(tag[..3]);
  }

  /**
   Otherwise, when the packaging pattern matches, the version is its capture:
   the longest non-empty, newline-free prefix of the tag followed by `-pkg-`,
   eight lower-case hex digits, `-ls` and a digit.
   */
  lemma PackageVersionGreedy(tag: string, k: nat)
    requires !StartsWithBuildNumber(tag)
    requires PackageCaptureAt(tag, k)
    ensures var v := GetImageVersion(tag);
      |v| >= k && v == tag[..|v|] && PackageCaptureAt(tag, |v|)
      && forall m: nat :: |v| < m ==> !PackageCaptureAt(tag, m)
  {
    var n := LineEnd(tag);
    assert k <= n;
    var r := Backtrack(tag, n);
    assert r.Some?;
    assert MatchPattern(VERSION_PATTERNS[0], tag).None?;
    assert MatchPattern(VERSION_PATTERNS[1], tag) == Some(tag[..r.value]);
    assert VERSION_PATTERNS[1..] == [PackageVersion];
    assert FirstMatch(VERSION_PATTERNS, tag) == FirstMatch([PackageVersion], tag);
    assert GetImageVersion(tag) == tag[..r.value];
    forall m: nat | r.value < m
      ensures !PackageCaptureAt(tag, m)
    {
      if m <= |tag| && m > n {
        assert '\n' in tag[..m];
      }
    }
  }

  /** When neither pattern matches at the start of the tag, the version is `<unknown>`. */
  lemma UnknownWhenNoPattern(tag: string)
    requires !StartsWithBuildNumber(tag)
    requires forall k: nat :: !PackageCaptureAt(tag, k)
    ensures GetImageVersion(tag) == UNKNOWN_VERSION
  {
    assert MatchPattern(VERSION_PATTERNS[0], tag).None?;
    assert MatchPattern(VERSION_PATTERNS[1], tag).None?;
  }

  /** Order matters: a packaging tag that starts with digits reports its first three. */
  lemma DigitsBeatPackage(tag: string)
    requires tag == "12345-pkg-0123abcd-ls7"
    ensures PackageCaptureAt(tag, 5)
    ensures GetImageVersion(tag) == "123"
  {
    assert tag[5..10] == "-pkg-" && tag[18..21] == "-ls";
    assert '\n' !in tag[..5];
    BuildNumberFirst(tag);
  }

  /** The suffix pattern only looks at the seventeen characters from its starting index. */
  lemma SuffixWindow(tag: string, k: nat)
    requires k + 17 <= |tag|
    ensures PackageSuffixAt(tag, k) <==> PackageSuffixAt(tag[k..k + 17], 0)
  {
    var t := tag[k..k + 17];
    assert forall i :: k <= i < k + 17 ==> tag[i] == t[i - k];
    assert tag[k..k + 5] == t[0..5];
    assert tag[k + 13..k + 16] == t[13..16];
  }

  /**
   The capture is greedy: when a tag holds two packaging suffixes back to
   back, the version is everything before the last one, not before the first.
   */
  lemma TwoSuffixesTakeTheLast(v: string, s1: string, s2: string)
    requires |v| >= 1 && '\n' !in v && !StartsWithBuildNumber(v + s1 + s2)
    requires |s1| == 17 && PackageSuffixAt(s1, 0)
    requires |s2| == 17 && PackageSuffixAt(s2, 0)
    ensures PackageCaptureAt(v + s1 + s2, |v|) && PackageCaptureAt(v + s1 + s2, |v| + 17)
    ensures GetImageVersion(v + s1 + s2) == v + s1
  {
    var tag := v + s1 + s2;
    SuffixInside(v, s1, s2);
    SuffixInside(v + s1, s2, "");
    assert tag == v + s1 + s2 + "";
    SuffixNoNewline(s1);
    assert tag[..|v|] == v;
    assert tag[..|v| + 17] == v + s1;
    PackageVersionGreedy(tag, |v| + 17);
  }

  /** A suffix match carries over to any text around it. */
  lemma SuffixInside(pre: string, w: string, post: string)
    requires |w| == 17 && PackageSuffixAt(w, 0)
    ensures PackageSuffixAt(pre + w + post, |pre|)
  {
    var tag := pre + w + post;
    assert tag[|pre|..|pre| + 17] == w;
    SuffixWindow(tag, |pre|);
  }

  /** The suffix pattern holds no newline. */
  lemma SuffixNoNewline(w: string)
    requires |w| == 17 && PackageSuffixAt(w, 0)
    ensures '\n' !in w
  {
    forall i | 0 <= i < 17
      ensures w[i] != '\n'
    {
      if i < 5 {
        assert w[i] == w[0..5][i];
      } else if 13 <= i < 16 {
        assert w[i] == w[13..16][i - 13];
      }
    }
  }

  /** For example `1.0-pkg-0123abcd-ls7-pkg-89abcdef-ls8` reports `1.0-pkg-0123abcd-ls7`. */
  lemma CaptureIsGreedy(v: string, s1: string, s2: string)
    requires v == "1.0" && s1 == "-pkg-0123abcd-ls7" && s2 == "-pkg-89abcdef-ls8"
    ensures GetImageVersion(v + s1 + s2) == v + s1
  {
    assert (v + s1 + s2)[1] == '.';
    TwoSuffixesTakeTheLast(v, s1, s2);
  }

  // ---------------------------------------------------------------------------
  // image / send_embed

  /** The two keys of the release payload the command reads; either may be absent. */
  datatype Release = Release(name: Option<string>, publishedAt: Option<string>)

  /** Each of the command's templates has one placeholder, which the image name fills. */
  lemma TemplatesFill(image: string)
    ensures Holes(EMBED_TITLE) == 1 && Format(EMBED_TITLE, [image]) == EMBED_TITLE_HEAD + image
    ensures Holes(GITHUB_REPO_URL) == 1 && Format(GITHUB_REPO_URL, [image]) == REPO_URL_HEAD + image
    ensures Holes(RETRIEVE_ERROR) == 1
      && Format(RETRIEVE_ERROR, [image]) == RETRIEVE_ERROR_HEAD + image + "**"
  {
    TemplatesPlain();
    FormatOne(EMBED_TITLE_HEAD, "", image);
    assert EMBED_TITLE == EMBED_TITLE_HEAD + "{}" + "";
    assert EMBED_TITLE_HEAD + image + "" == EMBED_TITLE_HEAD + image;
    FormatOne(REPO_URL_HEAD, "", image);
    assert GITHUB_REPO_URL == REPO_URL_HEAD + "{}" + "";
    assert REPO_URL_HEAD + image + "" == REPO_URL_HEAD + image;
    FormatOne(RETRIEVE_ERROR_HEAD, "**", image);
  }

  /**
   `send_embed` up to the send: the embed for an image, or `None` when the
   publication date cannot be reformatted (the exception is caught by the
   command). The "not yet migrated" note is set exactly when `migrated` is false.
   */
  function BuildEmbed(image: string, version: string, buildDate: Option<string>, migrated: bool,
                      reformat: string -> Option<string>): (embed: Option<Embed>)
    ensures embed.Some? <==> buildDate.None? || reformat(buildDate.value).Some?
    ensures embed.Some? ==> embed.value.kind == "rich" && embed.value.author == EMBED_AUTHOR
    ensures embed.Some? ==> embed.value.title == EMBED_TITLE_HEAD + image
    ensures embed.Some? ==> embed.value.url == REPO_URL_HEAD + image
    ensures embed.Some? ==> embed.value.description == (if migrated then None else Some(NOT_MIGRATED_NOTE))
    ensures embed.Some? ==>
              embed.value.fields ==
                [EmbedField("App Version", Some(version), false),
                 EmbedField("Build Date", if buildDate.None? then None else reformat(buildDate.value), false)]
  {
    TemplatesFill(image);
    var title := Format(EMBED_TITLE, [image]);
    var url := Format(GITHUB_REPO_URL, [image]);
    var description := if migrated then None else Some(NOT_MIGRATED_NOTE);
    var pretty := match buildDate
      case None => Some(None)
      case Some(d) => (match reformat(d) case Some(p) => Some(Some(p)) case None => None);
    match pretty
    case None => None
    case Some(date) =>
      Some(Embed("rich", EMBED_AUTHOR, title, url, description,
        [EmbedField("App Version", Some(version), false), EmbedField("Build Date", date, false)]))
  }

  /**
   `image`: ignored in a direct message; otherwise one reply in the channel,
   either the embed or, when the lookup, the tag name or the date fails, the
   error message.
   */
  function ImageCommand(inServer: bool, channel: string, imageName: string,
                        fetch: string -> Option<Release>, reformat: string -> Option<string>)
    : (effects: seq<Effect>)
    ensures !inServer ==> effects == []
    ensures inServer ==> |effects| == 1 && (effects[0].SendChannel? || effects[0].SendEmbed?)
                         && effects[0].channel == channel
  {
    if !inServer then []
    else
      var image := CleanImageName(imageName);
      TemplatesFill(image);
      var failure := [SendChannel(channel, Format(RETRIEVE_ERROR, [image]))];
      match fetch(image)
      case None => failure
      case Some(release) =>
        match release.name
        case None => failure
        case Some(tag) =>
          var version := GetImageVersion(tag);
          var buildDate := release.publishedAt;
          var migrated := buildDate.Some?;
          match BuildEmbed(image, version, buildDate, migrated, reformat)
          case None => failure
          case Some(embed) => [SendEmbed(channel, embed)]
  }

  /** No fixed text of the command holds a `{`. */
  lemma TemplatesPlain()
    ensures '{' !in EMBED_TITLE_HEAD && '{' !in REPO_URL_HEAD && '{' !in RETRIEVE_ERROR_HEAD
    ensures '{' !in "" && '{' !in "**"
  {
    // one literal at a time keeps each solver query small
    Plain1(); Plain2(); Plain3(); Plain4(); Plain5();
  }

  lemma Plain1() ensures '{' !in "Image information for " {}
  lemma Plain2() ensures '{' !in "https://github.com/" {}
  lemma Plain3() ensures '{' !in "linuxserver/docker-" {}
  lemma Plain4() ensures '{' !in "Unable to retrieve version " {}
  lemma Plain5() ensures '{' !in "information for **" {}

  /** A direct message gets no answer. */
  lemma ImageIgnoresDirectMessages(channel: string, imageName: string,
                                   fetch: string -> Option<Release>, reformat: string -> Option<string>)
    ensures ImageCommand(false, channel, imageName, fetch, reformat) == []
  {
  }

  /**
   In a server the command answers exactly once, in the invoking channel; the
   answer is the error message naming the cleaned image exactly when the
   lookup, the tag name or the date reformatting fails.
   */
  lemma ImageAnswersOnce(channel: string, imageName: string,
                         fetch: string -> Option<Release>, reformat: string -> Option<string>)
    ensures var effects := ImageCommand(true, channel, imageName, fetch, reformat);
      var image := CleanImageName(imageName);
      var release := fetch(image);
      |effects| == 1
      && (effects[0].SendEmbed? || effects[0].SendChannel?)
      && effects[0].channel == channel
      && (effects[0].SendChannel? <==>
            release.None? || release.value.name.None?
            || (release.value.publishedAt.Some? && reformat(release.value.publishedAt.value).None?))
      && (effects[0].SendChannel? ==>
            effects[0].text == RETRIEVE_ERROR_HEAD + image + "**")
  {
    TemplatesFill(CleanImageName(imageName));
  }

  /**
   When everything succeeds the embed is about the cleaned image: its title
   and URL are the templates filled with that name, its version field is the
   version extracted from the tag, and the "not yet migrated" note appears
   exactly when the release has no publication date.
   */
  lemma ImageEmbedContents(channel: string, imageName: string, tag: string, published: Option<string>,
                           fetch: string -> Option<Release>, reformat: string -> Option<string>)
    requires fetch(CleanImageName(imageName)) == Some(Release(Some(tag), published))
    requires published.None? || reformat(published.value).Some?
    ensures var effects := ImageCommand(true, channel, imageName, fetch, reformat);
      var image := CleanImageName(imageName);
      |effects| == 1 && effects[0].SendEmbed?
      && effects[0].embed.title == EMBED_TITLE_HEAD + image
      && effects[0].embed.url == REPO_URL_HEAD + image
      && effects[0].embed.kind == "rich" && effects[0].embed.author == EMBED_AUTHOR
      && effects[0].embed.fields[0] == EmbedField("App Version", Some(GetImageVersion(tag)), false)
      && effects[0].embed.fields[1]
         == EmbedField("Build Date", if published.None? then None else reformat(published.value), false)
      && (effects[0].embed.description.Some? <==> published.None?)
      && (effects[0].embed.description.Some? ==> effects[0].embed.description.value == NOT_MIGRATED_NOTE)
  {
    TemplatesFill(CleanImageName(imageName));
  }
}
