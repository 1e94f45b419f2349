/** `MessageCreator`: lays out the locale tree for a gettext domain, runs the
    extraction, merge and compile tools in order, and applies each phase's own
    failure policy. The tools are not run: what each invocation did is given as
    a `ToolOutcome` (or an `ExtractorRun` for the extraction pipeline), and the
    filesystem is a `FileSystem` object. */
module MessageCreation {
  import opened Text
  import opened Configuration
  import opened Files

  const MessagesPathName := "LC_MESSAGES"
  const CharsetPlaceholder := "charset=CHARSET"
  const CharsetUtf8 := "charset=UTF-8"

  type FileMap = map<string, string>

  /** The argument vector of one tool invocation. */
  type Command = seq<string>

  /** What one run of `msgmerge` or `msgfmt` came to: it wrote `content` to its
      output file, or the executable was missing (`FileNotFoundError`), it
      exited non-zero (`CalledProcessError`) or it ran past its timeout
      (`TimeoutExpired`). */
  datatype ToolOutcome = Succeeded(content: string) | NotFound | Failed(returnCode: int) | TimedOut

  /** What the `find ... | xargs xgettext` pipeline did: wrote the template,
      wrote nothing (no translatable string, or an error `subprocess.run` does
      not check), or could not start because `bash` is missing. */
  datatype ExtractorRun = Wrote(content: string) | WroteNothing | ShellNotFound

  /** How `create_message_files` ends: normally, with the "at least one
      message" notice, or with a `MessageCreatorError` propagating out. */
  datatype Status = Created | NothingToTranslate | Aborted

  datatype TemplateResult = TemplateResult(files: FileMap, ok: bool)

  /** The files after some languages were synchronised, and whether a
      `MessageCreatorError` was raised. */
  datatype SyncState = SyncState(files: FileMap, raised: bool)

  /** `p` is present in `b` exactly when in `a`, with the same content. */
  predicate Unchanged(a: FileMap, b: FileMap, p: string)
  {
    (p in a <==> p in b) && (p in a ==> a[p] == b[p])
  }

  predicate NoDuplicates(s: seq<string>)
  {
    forall i, j :: 0 <= i < j < |s| ==> s[i] != s[j]
  }

  /** `content.replace('charset=CHARSET', 'charset=UTF-8')`. */
  function RewriteCharset(content: string): string
  {
    Replace(content, CharsetPlaceholder, CharsetUtf8)
  }

  lemma PlaceholderClears()
    ensures Clears(CharsetPlaceholder, CharsetUtf8)
    ensures CharsetPlaceholder[0] !in CharsetPlaceholder[1..]
  {
    assert CharsetUtf8[8] != CharsetPlaceholder[8];
  }

  /** After the rewrite no `charset=CHARSET` remains, even where the new text
      meets the old. */
  lemma RewriteLeavesNoPlaceholder(content: string)
    ensures !Contains(RewriteCharset(content), CharsetPlaceholder)
  {
    PlaceholderClears();
    ReplaceLeavesNone(content, CharsetPlaceholder, CharsetUtf8);
  }

  /** A template without the placeholder is left as it is. */
  lemma RewriteKeepsPlainText(content: string)
    requires !Contains(content, CharsetPlaceholder)
    ensures RewriteCharset(content) == content
  {
    ReplaceAbsent(content, CharsetPlaceholder, CharsetUtf8);
  }

  /** Each occurrence becomes `charset=UTF-8` and the text around it is kept. */
  lemma RewriteEachOccurrence(before: string, after: string)
    requires !Contains(before, CharsetPlaceholder)
    ensures RewriteCharset(before + CharsetPlaceholder + after) == before + CharsetUtf8 + RewriteCharset(after)
  {
    PlaceholderClears();
    ReplaceFirst(before, CharsetPlaceholder, CharsetUtf8, after);
  }

  class MessageCreator {
    const domain: string
    const languages: seq<string>
    const localeDir: string
    const templateMessageFileName: string := localeDir + "/" + domain + ".pot"

    /** `MessageCreator(domain, languages, locale_dir)` with `env` standing for
        the process environment. */
    constructor (domainArgument: string, languagesArgument: seq<string>, localeDirArgument: string,
                 env: Environment, defaults: Defaults)
      ensures domain == ResolveText(domainArgument, env, DomainVariable, defaults.domain)
      ensures languages == ResolveLanguages(languagesArgument, env, defaults.languages)
      ensures localeDir == ResolveText(localeDirArgument, env, LocaleDirVariable, defaults.localeDir)
    {
      domain := ResolveText(domainArgument, env, DomainVariable, defaults.domain);
      languages := ResolveLanguages(languagesArgument, env, defaults.languages);
      localeDir := ResolveText(localeDirArgument, env, LocaleDirVariable, defaults.localeDir);
    }

    /** `_get_locale_dir_by_language`. */
    function LocaleDirByLanguage(language: string): string
    {
      localeDir + "/" + language + "/" + MessagesPathName
    }

    /** The language catalogue `.po`. */
    function MessageFile(language: string): string
    {
      LocaleDirByLanguage(language) + "/" + domain + ".po"
    }

    /** The backup `msgmerge --update` may leave beside the catalogue. */
    function BackupFile(language: string): string
    {
      MessageFile(language) + "~"
    }

    /** The compiled catalogue `.mo`. */
    function MessageObjectFile(language: string): string
    {
      LocaleDirByLanguage(language) + "/" + domain + ".mo"
    }

    /** The input path handed to `msgfmt`: the catalogue path without `.po`. */
    function CompileSource(language: string): string
    {
      LocaleDirByLanguage(language) + "/" + domain
    }

    function CompileCommand(language: string): Command
    {
      ["msgfmt", "-o", MessageObjectFile(language), CompileSource(language)]
    }

    /** The language can be read back from its catalogue path. */
    lemma LanguageInPath(language: string)
      ensures MessageFile(language)[|localeDir| + 1..|localeDir| + 1 + |language|] == language
      ensures MessageObjectFile(language)[|localeDir| + 1..|localeDir| + 1 + |language|] == language
      ensures |MessageFile(language)| == |MessageObjectFile(language)| == |localeDir| + |language| + |domain| + 17
    {
      var tail := "/" + MessagesPathName + "/" + domain;
      assert MessageFile(language) == (localeDir + "/") + language + (tail + ".po");
      assert MessageObjectFile(language) == (localeDir + "/") + language + (tail + ".mo");
    }

    /** The template, the catalogues, their backups and the compiled files of
        distinct languages are all distinct paths. */
    lemma PathsDistinct(a: string, b: string)
      ensures MessageFile(a) != templateMessageFileName && BackupFile(a) != templateMessageFileName
      ensures MessageFile(a) != BackupFile(b)
      ensures a != b ==> MessageFile(a) != MessageFile(b) && BackupFile(a) != BackupFile(b)
      ensures a != b ==> MessageObjectFile(a) != MessageObjectFile(b)
      ensures MessageObjectFile(a) != MessageFile(b) && MessageObjectFile(a) != BackupFile(b)
      ensures MessageObjectFile(a) != templateMessageFileName
    {
      var ma, pb0 := MessageObjectFile(a), MessageFile(b);
      assert ma[|ma| - 2] == 'm' && pb0[|pb0| - 2] == 'p';
      var t, pa, ba := templateMessageFileName, MessageFile(a), BackupFile(a);
      assert t[|t| - 1] == 't' && pa[|pa| - 1] == 'o' && ba[|ba| - 1] == '~';
      var pb, bb := MessageFile(b), BackupFile(b);
      assert bb[|bb| - 1] == '~';
      LanguageInPath(a);
      LanguageInPath(b);
      assert ba[..|ba| - 1] == pa && bb[..|bb| - 1] == pb;
      assert pa == pb ==> |a| == |b|;
    }

    /** `msgfmt` is given the catalogue path minus its `.po` suffix. */
    lemma CompileSourceIsCatalogueStem(language: string)
      ensures CompileSource(language) + ".po" == MessageFile(language)
      ensures CompileSource(language) != MessageFile(language)
    {
      assert |CompileSource(language)| + 3 == |MessageFile(language)|;
    }

    // ---------------------------------------------------------------------
    // _create_directories

    /** The directories made for the first `n` languages. */
    function LanguageDirs(n: nat): set<string>
      requires n <= |languages|
    {
      if n == 0 then {} else LanguageDirs(n - 1) + Parents(LocaleDirByLanguage(languages[n - 1]))
    }

    /** They hold each language's directory. */
    lemma {:induction false} LanguageDirsCover(n: nat)
      requires n <= |languages|
      ensures forall j :: 0 <= j < n ==> LocaleDirByLanguage(languages[j]) in LanguageDirs(n)
    {
      if n > 0 {
        LanguageDirsCover(n - 1);
        var last := LocaleDirByLanguage(languages[n - 1]);
        assert LanguageDirs(n) == LanguageDirs(n - 1) + Parents(last);
        forall j | 0 <= j < n ensures LocaleDirByLanguage(languages[j]) in LanguageDirs(n) {
          if j < n - 1 {
            assert LocaleDirByLanguage(languages[j]) in LanguageDirs(n - 1);
          } else {
            assert last in Parents(last);
          }
        }
      }
    }

    /** They hold those directories and their parents, and nothing else. */
    lemma {:induction false} LanguageDirsOnly(n: nat, d: string)
      requires n <= |languages|
      requires d in LanguageDirs(n)
      ensures exists j :: 0 <= j < n && d <= LocaleDirByLanguage(languages[j])
    {
      if n > 0 {
        if d in LanguageDirs(n - 1) {
          LanguageDirsOnly(n - 1, d);
        } else {
          assert d <= LocaleDirByLanguage(languages[n - 1]);
        }
      }
    }

    /** `_create_directories`: every language directory exists afterwards, what
        existed stays, no file changes, and a second call adds nothing. */
    method CreateDirectories(fs: FileSystem)
      modifies fs
      ensures fs.dirs == old(fs.dirs) + LanguageDirs(|languages|)
      ensures fs.files == old(fs.files)
      ensures forall language :: language in languages ==> LocaleDirByLanguage(language) in fs.dirs
      ensures forall d :: d in fs.dirs && d !in old(fs.dirs) ==>
                exists language :: language in languages && d <= LocaleDirByLanguage(language)
    {
      for i := 0 to |languages|
        invariant fs.dirs == old(fs.dirs) + LanguageDirs(i)
        invariant fs.files == old(fs.files)
      {
        var path := LocaleDirByLanguage(languages[i]);
        fs.MakeDirs(path);
      }
      LanguageDirsCover(|languages|);
      forall d | d in fs.dirs && d !in old(fs.dirs)
        ensures exists language :: language in languages && d <= LocaleDirByLanguage(language)
      {
        LanguageDirsOnly(|languages|, d);
        var j :| 0 <= j < |languages| && d <= LocaleDirByLanguage(languages[j]);
        assert languages[j] in languages;
      }
    }

    /** Creating the directories a second time changes nothing: two calls
        leave the tree as one does. */
    method DirectoriesIdempotent(fs: FileSystem)
      modifies fs
      ensures fs.dirs == old(fs.dirs) + LanguageDirs(|languages|)
      ensures fs.files == old(fs.files)
    {
      CreateDirectories(fs);
      ghost var once := fs.dirs;
      CreateDirectories(fs);
      assert fs.dirs == once;
    }

    // ---------------------------------------------------------------------
    // _create_template_message_file

    /** The template step: the extractor writes (or not), then the template is
        read, rewritten to UTF-8 and written back. It succeeds exactly when a
        template is there to read, and leaves no placeholder behind. */
    function ExtractTemplate(files: FileMap, run: ExtractorRun): (r: TemplateResult)
      ensures r.ok <==> run.Wrote? || (run.WroteNothing? && templateMessageFileName in files)
      ensures r.ok ==> templateMessageFileName in r.files
                       && !Contains(r.files[templateMessageFileName], CharsetPlaceholder)
      ensures run.Wrote? ==> r.files[templateMessageFileName] == RewriteCharset(run.content)
      ensures run.WroteNothing? && r.ok ==>
                r.files[templateMessageFileName] == RewriteCharset(files[templateMessageFileName])
      ensures !r.ok ==> r.files == files
      ensures forall p :: p != templateMessageFileName ==> Unchanged(files, r.files, p)
    {
      var produced := if run.Wrote? then files[templateMessageFileName := run.content] else files;
      if run.ShellNotFound? || templateMessageFileName !in produced then
        TemplateResult(files, false)
      else
        var content := produced[templateMessageFileName];
        RewriteLeavesNoPlaceholder(content);
        TemplateResult(produced[templateMessageFileName := RewriteCharset(content)], true)
    }

    /** `_create_template_message_file`. */
    method CreateTemplateMessageFile(fs: FileSystem, run: ExtractorRun) returns (ok: bool)
      modifies fs
      ensures fs.dirs == old(fs.dirs)
      ensures TemplateResult(fs.files, ok) == ExtractTemplate(old(fs.files), run)
    {
      match run {
        case ShellNotFound => return false;
        case Wrote(content) => fs.Write(templateMessageFileName, content);
        case WroteNothing =>
      }
      var content := fs.Read(templateMessageFileName);
      if content.None? {
        return false;
      }
      fs.Write(templateMessageFileName, RewriteCharset(content.value));
      ok := true;
    }

    // ---------------------------------------------------------------------
    // _update_locale_message_file and _make_locale_message_files

    /** The effect of one `msgmerge --update` on `fileName`: on success the
        merged content replaces the catalogue and the backup is gone. */
    function Merged(files: FileMap, fileName: string, outcome: ToolOutcome): FileMap
    {
      if outcome.Succeeded? then files[fileName := outcome.content] - {fileName + "~"} else files
    }

    /** `_update_locale_message_file`: true exactly when `msgmerge` succeeded;
        the three failures return false without raising. */
    method UpdateLocaleMessageFile(fs: FileSystem, fileName: string, outcome: ToolOutcome) returns (ok: bool)
      modifies fs
      ensures ok == outcome.Succeeded?
      ensures fs.files == Merged(old(fs.files), fileName, outcome)
      ensures fs.dirs == old(fs.dirs)
    {
      match outcome {
        case Succeeded(content) =>
          fs.Write(fileName, content);
          fs.Unlink(fileName + "~");
          ok := true;
        case _ =>
          ok := false;
      }
    }

    /** One language of `_make_locale_message_files`: a missing catalogue is a
        copy of the template, an existing one is merged. Only the catalogue and
        its backup can change. */
    function SyncStep(files: FileMap, language: string, outcome: ToolOutcome): (s: SyncState)
      requires templateMessageFileName in files
      ensures templateMessageFileName in s.files
      ensures s.files[templateMessageFileName] == files[templateMessageFileName]
      ensures forall p :: p != MessageFile(language) && p != BackupFile(language) ==> Unchanged(files, s.files, p)
    {
      PathsDistinct(language, language);
      var fileName := MessageFile(language);
      if fileName !in files then
        SyncState(files[fileName := files[templateMessageFileName]], false)
      else
        SyncState(Merged(files, fileName, outcome), !outcome.Succeeded?)
    }

    /** The first `n` languages in list order, stopping at the first raise. */
    function SyncUpTo(files0: FileMap, merges: seq<ToolOutcome>, n: nat): (s: SyncState)
      requires n <= |languages| == |merges|
      requires templateMessageFileName in files0
      ensures templateMessageFileName in s.files
      ensures s.files[templateMessageFileName] == files0[templateMessageFileName]
    {
      if n == 0 then SyncState(files0, false)
      else
        var prev := SyncUpTo(files0, merges, n - 1);
        if prev.raised then prev else SyncStep(prev.files, languages[n - 1], merges[n - 1])
    }

    /** `_make_locale_message_files`; `merges[i]` is what `msgmerge` does if it
        is run for `languages[i]`. */
    method MakeLocaleMessageFiles(fs: FileSystem, merges: seq<ToolOutcome>) returns (raised: bool)
      requires |merges| == |languages|
      requires templateMessageFileName in fs.files
      requires forall language :: language in languages ==> LocaleDirByLanguage(language) in fs.dirs
      modifies fs
      ensures fs.dirs == old(fs.dirs)
      ensures SyncUpTo(old(fs.files), merges, |languages|) == SyncState(fs.files, raised)
    {
      var i := 0;
      while i < |languages|
        invariant 0 <= i <= |languages|
        invariant fs.dirs == old(fs.dirs)
        invariant SyncUpTo(old(fs.files), merges, i) == SyncState(fs.files, false)
      {
        var fileName := MessageFile(languages[i]);
        if !fs.IsFile(fileName) {
          fs.CopyFile(templateMessageFileName, fileName);
        } else {
          var ok := UpdateLocaleMessageFile(fs, fileName, merges[i]);
          if !ok {
            SyncRaisedFinal(old(fs.files), merges, i + 1, |languages|);
            return true;
          }
        }
        i := i + 1;
      }
      raised := false;
    }

    /** The merge for `languages[j]` fails: its catalogue already exists and
        `msgmerge` does not succeed. */
    predicate MergeFails(files0: FileMap, merges: seq<ToolOutcome>, j: nat)
      requires j < |languages| == |merges|
    {
      MessageFile(languages[j]) in files0 && !merges[j].Succeeded?
    }

    /** Once raised, later languages are not processed. */
    lemma {:induction false} SyncRaisedFinal(files0: FileMap, merges: seq<ToolOutcome>, k: nat, n: nat)
      requires k <= n <= |languages| == |merges|
      requires templateMessageFileName in files0
      requires SyncUpTo(files0, merges, k).raised
      ensures SyncUpTo(files0, merges, n) == SyncUpTo(files0, merges, k)
      decreases n
    {
      if n > k {
        SyncRaisedFinal(files0, merges, k, n - 1);
      }
    }

    /** Languages from `k` on leave every other path alone. */
    lemma {:induction false} SyncFrame(files0: FileMap, merges: seq<ToolOutcome>, k: nat, n: nat, p: string)
      requires k <= n <= |languages| == |merges|
      requires templateMessageFileName in files0
      requires forall i :: k <= i < n ==> p != MessageFile(languages[i]) && p != BackupFile(languages[i])
      ensures Unchanged(SyncUpTo(files0, merges, k).files, SyncUpTo(files0, merges, n).files, p)
      decreases n
    {
      if n > k {
        SyncFrame(files0, merges, k, n - 1, p);
      }
    }

    /** Of distinct languages, each catalogue is touched only by its own step. */
    lemma OthersUntouched(j: nat, k: nat, n: nat)
      requires j < |languages| && n <= |languages| && NoDuplicates(languages)
      requires j < k || n <= j
      ensures var language := languages[j];
        forall i :: k <= i < n ==>
          && MessageFile(language) != MessageFile(languages[i]) && MessageFile(language) != BackupFile(languages[i])
          && BackupFile(language) != MessageFile(languages[i]) && BackupFile(language) != BackupFile(languages[i])
    {
      var language := languages[j];
      forall i | k <= i < n
        ensures && MessageFile(language) != MessageFile(languages[i]) && MessageFile(language) != BackupFile(languages[i])
                && BackupFile(language) != MessageFile(languages[i]) && BackupFile(language) != BackupFile(languages[i])
      {
        assert language != languages[i];
        PathsDistinct(language, languages[i]);
        PathsDistinct(languages[i], language);
      }
    }

    /** The catalogue and backup of `languages[j]` survive the steps of the
        other languages from `k` to `n`. */
    lemma OwnPathsKept(files0: FileMap, merges: seq<ToolOutcome>, j: nat, k: nat, n: nat)
      requires j < |languages| && k <= n <= |languages| == |merges|
      requires templateMessageFileName in files0
      requires NoDuplicates(languages)
      requires j < k || n <= j
      ensures var before, after := SyncUpTo(files0, merges, k).files, SyncUpTo(files0, merges, n).files;
        Unchanged(before, after, MessageFile(languages[j])) && Unchanged(before, after, BackupFile(languages[j]))
    {
      OthersUntouched(j, k, n);
      SyncFrame(files0, merges, k, n, MessageFile(languages[j]));
      SyncFrame(files0, merges, k, n, BackupFile(languages[j]));
    }

    /** A `MessageCreatorError` is raised exactly when some merge fails. */
    lemma {:induction false} SyncRaisedIff(files0: FileMap, merges: seq<ToolOutcome>, n: nat)
      requires n <= |languages| == |merges|
      requires templateMessageFileName in files0
      requires NoDuplicates(languages)
      ensures SyncUpTo(files0, merges, n).raised <==> exists j :: 0 <= j < n && MergeFails(files0, merges, j)
      decreases n
    {
      if n > 0 {
        SyncRaisedIff(files0, merges, n - 1);
        var prev := SyncUpTo(files0, merges, n - 1);
        if !prev.raised {
          var catalogue := MessageFile(languages[n - 1]);
          OwnPathsKept(files0, merges, n - 1, 0, n - 1);
          assert (catalogue in prev.files) == (catalogue in files0);
          assert SyncUpTo(files0, merges, n) == SyncStep(prev.files, languages[n - 1], merges[n - 1]);
          assert SyncUpTo(files0, merges, n).raised == MergeFails(files0, merges, n - 1);
        }
      }
    }

    /** What synchronising does to the catalogue of `languages[j]`, given
        whether every earlier merge succeeded. */
    lemma SyncLanguage(files0: FileMap, merges: seq<ToolOutcome>, j: nat, n: nat)
      requires j < n <= |languages| == |merges|
      requires templateMessageFileName in files0
      requires NoDuplicates(languages)
      ensures var language := languages[j];
        var catalogue, backup := MessageFile(language), BackupFile(language);
        var after := SyncUpTo(files0, merges, n).files;
        var reached := forall i :: 0 <= i < j ==> !MergeFails(files0, merges, i);
        && (reached && catalogue !in files0 ==>
              catalogue in after && after[catalogue] == files0[templateMessageFileName])
        && (reached && catalogue in files0 && merges[j].Succeeded? ==>
              catalogue in after && after[catalogue] == merges[j].content && backup !in after)
        && (!reached || MergeFails(files0, merges, j) ==>
              Unchanged(files0, after, catalogue) && Unchanged(files0, after, backup))
    {
      var before := SyncUpTo(files0, merges, j);
      OwnPathsKept(files0, merges, j, 0, j);
      SyncRaisedIff(files0, merges, j);
      if !before.raised {
        StepOnCatalogue(before.files, languages[j], merges[j]);
      }
      OwnPathsKept(files0, merges, j, j + 1, n);
    }

    /** One step seen from its own catalogue. */
    lemma StepOnCatalogue(files: FileMap, language: string, outcome: ToolOutcome)
      requires templateMessageFileName in files
      ensures var s, catalogue, backup := SyncStep(files, language, outcome), MessageFile(language), BackupFile(language);
        && (catalogue !in files ==> !s.raised && catalogue in s.files && s.files[catalogue] == files[templateMessageFileName])
        && (catalogue in files && outcome.Succeeded? ==>
              !s.raised && catalogue in s.files && s.files[catalogue] == outcome.content && backup !in s.files)
        && (catalogue in files && !outcome.Succeeded? ==> s.raised && s.files == files)
    {
      PathsDistinct(language, language);
    }

    /** Every other path, the template included, is left alone. */
    lemma SyncOtherPaths(files0: FileMap, merges: seq<ToolOutcome>, p: string)
      requires |languages| == |merges|
      requires templateMessageFileName in files0
      requires forall language :: language in languages ==> p != MessageFile(language) && p != BackupFile(language)
      ensures Unchanged(files0, SyncUpTo(files0, merges, |languages|).files, p)
    {
      SyncFrame(files0, merges, 0, |languages|, p);
    }

    /** On a fresh locale tree no error is raised and every catalogue is an
        exact copy of the template, so it holds every string the template does. */
    lemma FreshCataloguesCopyTemplate(files0: FileMap, merges: seq<ToolOutcome>)
      requires |languages| == |merges|
      requires templateMessageFileName in files0
      requires NoDuplicates(languages)
      requires forall language :: language in languages ==> MessageFile(language) !in files0
      ensures !SyncUpTo(files0, merges, |languages|).raised
      ensures var after := SyncUpTo(files0, merges, |languages|).files;
        forall language :: language in languages ==>
          MessageFile(language) in after && after[MessageFile(language)] == files0[templateMessageFileName]
    {
      SyncRaisedIff(files0, merges, |languages|);
      var after := SyncUpTo(files0, merges, |languages|).files;
      forall language | language in languages
        ensures MessageFile(language) in after && after[MessageFile(language)] == files0[templateMessageFileName]
      {
        var j :| 0 <= j < |languages| && languages[j] == language;
        SyncLanguage(files0, merges, j, |languages|);
      }
    }

    // ---------------------------------------------------------------------
    // create_message_files

    /** `create_message_files`: directories first; the languages are
        synchronised only when the template step returned true. */
    method CreateMessageFiles(fs: FileSystem, run: ExtractorRun, merges: seq<ToolOutcome>) returns (status: Status)
      requires |merges| == |languages|
      modifies fs
      ensures fs.dirs == old(fs.dirs) + LanguageDirs(|languages|)
      ensures var t := ExtractTemplate(old(fs.files), run);
        if t.ok then
          status != NothingToTranslate && SyncUpTo(t.files, merges, |languages|) == SyncState(fs.files, status == Aborted)
        else
          status == NothingToTranslate && fs.files == old(fs.files)
    {
      CreateDirectories(fs);
      var ok := CreateTemplateMessageFile(fs, run);
      if ok {
        var raised := MakeLocaleMessageFiles(fs, merges);
        status := if raised then Aborted else Created;
      } else {
        status := NothingToTranslate;
      }
    }

    // ---------------------------------------------------------------------
    // generate_message_objects

    /** One `msgfmt` run: on success the compiled file holds its output. */
    function Compiled(files: FileMap, language: string, outcome: ToolOutcome): FileMap
    {
      if outcome.Succeeded? then files[MessageObjectFile(language) := outcome.content] else files
    }

    /** The first `n` languages compiled, each whatever the others did. */
    function CompileUpTo(files0: FileMap, compiles: seq<ToolOutcome>, n: nat): FileMap
      requires n <= |languages| == |compiles|
    {
      if n == 0 then files0 else Compiled(CompileUpTo(files0, compiles, n - 1), languages[n - 1], compiles[n - 1])
    }

    /** `generate_message_objects`; `compiles[i]` is what `msgfmt` does for
        `languages[i]`. Every language is tried, in order, and nothing is raised. */
    method GenerateMessageObjects(fs: FileSystem, compiles: seq<ToolOutcome>) returns (ran: seq<Command>)
      requires |compiles| == |languages|
      modifies fs
      ensures fs.dirs == old(fs.dirs)
      ensures fs.files == CompileUpTo(old(fs.files), compiles, |languages|)
      ensures |ran| == |languages|
      ensures forall i :: 0 <= i < |languages| ==> ran[i] == CompileCommand(languages[i])
    {
      ran := [];
      for i := 0 to |languages|
        invariant fs.dirs == old(fs.dirs)
        invariant fs.files == CompileUpTo(old(fs.files), compiles, i)
        invariant |ran| == i && forall k :: 0 <= k < i ==> ran[k] == CompileCommand(languages[k])
      {
        var localeDirectory := LocaleDirByLanguage(languages[i]);
        var moFile := localeDirectory + "/" + domain + ".mo";
        ran := ran + [["msgfmt", "-o", moFile, localeDirectory + "/" + domain]];
        match compiles[i] {
          case Succeeded(content) => fs.Write(moFile, content);
          case _ =>
        }
      }
    }

    /** Compiling never removes a file, and every language whose `msgfmt`
        succeeded has its compiled file, whatever happened to the others. */
    lemma {:induction false} ObjectsGenerated(files0: FileMap, compiles: seq<ToolOutcome>, n: nat)
      requires n <= |languages| == |compiles|
      ensures files0.Keys <= CompileUpTo(files0, compiles, n).Keys
      ensures forall j :: 0 <= j < n && compiles[j].Succeeded? ==>
                MessageObjectFile(languages[j]) in CompileUpTo(files0, compiles, n)
      decreases n
    {
      if n > 0 {
        ObjectsGenerated(files0, compiles, n - 1);
      }
    }

    /** Languages from `k` on leave every path but their compiled files alone. */
    lemma {:induction false} CompileFrame(files0: FileMap, compiles: seq<ToolOutcome>, k: nat, n: nat, p: string)
      requires k <= n <= |languages| == |compiles|
      requires forall i :: k <= i < n ==> p != MessageObjectFile(languages[i])
      ensures Unchanged(CompileUpTo(files0, compiles, k), CompileUpTo(files0, compiles, n), p)
      decreases n
    {
      if n > k {
        CompileFrame(files0, compiles, k, n - 1, p);
      }
    }

    /** Of distinct languages, each compiled file holds its own `msgfmt` output,
        or is as it was when that run failed. */
    lemma CompileLanguage(files0: FileMap, compiles: seq<ToolOutcome>, j: nat)
      requires j < |languages| == |compiles|
      requires NoDuplicates(languages)
      ensures var mo, after := MessageObjectFile(languages[j]), CompileUpTo(files0, compiles, |languages|);
        && (compiles[j].Succeeded? ==> mo in after && after[mo] == compiles[j].content)
        && (!compiles[j].Succeeded? ==> Unchanged(files0, after, mo))
    {
      var language := languages[j];
      forall i | 0 <= i < |languages| && i != j ensures MessageObjectFile(language) != MessageObjectFile(languages[i]) {
        assert language != languages[i];
        PathsDistinct(language, languages[i]);
      }
      CompileFrame(files0, compiles, 0, j, MessageObjectFile(language));
      CompileFrame(files0, compiles, j + 1, |languages|, MessageObjectFile(language));
    }
  }
}
