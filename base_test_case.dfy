/** The reusable parts of the integration-test base class: the paths it checks,
    the in-place filling of one translation into a catalogue, and the rule by
    which the `TestCaseMeta` metaclass exposes inherited `_test_` methods. */
module BaseTestCase {
  import opened Text
  import opened Files
  import opened MessageCreation

  // -----------------------------------------------------------------------
  // Paths the tests inspect

  function TemplateMessageFile(localeDir: string, domain: string): string
  {
    localeDir + "/" + domain + ".pot"
  }

  function LocaleDirByLanguage(localeDir: string, language: string): string
  {
    localeDir + "/" + language + "/" + MessagesPathName
  }

  function MessageFileByLanguage(localeDir: string, domain: string, language: string): string
  {
    LocaleDirByLanguage(localeDir, language) + "/" + domain + ".po"
  }

  function MessageObjectFileByLanguage(localeDir: string, domain: string, language: string): string
  {
    LocaleDirByLanguage(localeDir, language) + "/" + domain + ".mo"
  }

  /** The tests look exactly where the creator writes. */
  lemma PathsAgree(creator: MessageCreator, language: string)
    ensures TemplateMessageFile(creator.localeDir, creator.domain) == creator.templateMessageFileName
    ensures LocaleDirByLanguage(creator.localeDir, language) == creator.LocaleDirByLanguage(language)
    ensures MessageFileByLanguage(creator.localeDir, creator.domain, language) == creator.MessageFile(language)
    ensures MessageObjectFileByLanguage(creator.localeDir, creator.domain, language) == creator.MessageObjectFile(language)
  {
  }

  // -----------------------------------------------------------------------
  // Lines of a text file, as `fileinput` yields them

  function Concat(lines: seq<string>): string
    decreases |lines|
  {
    if lines == [] then [] else lines[0] + Concat(lines[1..])
  }

  /** The lines of `s`, each keeping its `\n`: they make up `s` and none is empty. */
  function Lines(s: string): (r: seq<string>)
    ensures Concat(r) == s
    ensures forall i :: 0 <= i < |r| ==> r[i] != []
    decreases |s|
  {
    if s == [] then []
    else
      var rest := Lines(s[1..]);
      if s[0] == '\n' || rest == [] then
        assert ([[s[0]]] + rest)[1..] == rest;
        [[s[0]]] + rest
      else
        var r := [[s[0]] + rest[0]] + rest[1..];
        assert Concat(rest) == rest[0] + Concat(rest[1..]);
        assert r[1..] == rest[1..];
        r
  }

  /** Every line but the last ends with a newline. */
  lemma {:induction false} LinesEndAtNewlines(s: string)
    ensures forall i :: 0 <= i < |Lines(s)| - 1 ==> Lines(s)[i][|Lines(s)[i]| - 1] == '\n'
    decreases |s|
  {
    if s != [] {
      LinesEndAtNewlines(s[1..]);
      var rest := Lines(s[1..]);
      var r := Lines(s);
      if s[0] == '\n' || rest == [] {
        assert r == [[s[0]]] + rest;
        forall i | 1 <= i < |r| - 1 ensures r[i][|r[i]| - 1] == '\n' {
          assert r[i] == rest[i - 1] && rest[i - 1][|rest[i - 1]| - 1] == '\n';
        }
      } else {
        assert r == [[s[0]] + rest[0]] + rest[1..];
        forall i | 0 <= i < |r| - 1 ensures r[i][|r[i]| - 1] == '\n' {
          if i == 0 {
            assert rest[0][|rest[0]| - 1] == '\n';
          } else {
            assert r[i] == rest[i] && rest[i][|rest[i]| - 1] == '\n';
          }
        }
      }
    }
  }

  /** No line holds a newline before its last character. */
  lemma {:induction false} LinesHaveNoInnerNewline(s: string)
    ensures forall i, k :: 0 <= i < |Lines(s)| && 0 <= k < |Lines(s)[i]| - 1 ==> Lines(s)[i][k] != '\n'
    decreases |s|
  {
    if s != [] {
      LinesHaveNoInnerNewline(s[1..]);
      var rest := Lines(s[1..]);
      var r := Lines(s);
      if s[0] == '\n' || rest == [] {
        assert r == [[s[0]]] + rest;
        forall i, k | 1 <= i < |r| && 0 <= k < |r[i]| - 1 ensures r[i][k] != '\n' {
          assert r[i] == rest[i - 1] && rest[i - 1][k] != '\n';
        }
      } else {
        assert r == [[s[0]] + rest[0]] + rest[1..];
        forall i, k | 0 <= i < |r| && 0 <= k < |r[i]| - 1 ensures r[i][k] != '\n' {
          if i == 0 {
            assert k > 0 ==> r[0][k] == rest[0][k - 1] && rest[0][k - 1] != '\n';
          } else {
            assert r[i] == rest[i] && rest[i][k] != '\n';
          }
        }
      }
    }
  }

  // -----------------------------------------------------------------------
  // _fill_translation

  const EmptyString := "\"\""

  /** `line.replace('""', f'"{translated}"')`. */
  function Filled(line: string, translated: string): string
  {
    Replace(line, EmptyString, "\"" + translated + "\"")
  }

  /** The lines written so far, and the flag carried to the next line. */
  datatype FillState = FillState(written: seq<string>, toFill: bool)

  /** `_fill_translation` after the first `n` lines: a line is filled when the
      flag is up, and the flag is then set by the line as written, after any
      replacement. */
  function FillUpTo(lines: seq<string>, text: string, translated: string, n: nat): (s: FillState)
    requires n <= |lines|
    ensures |s.written| == n
  {
    if n == 0 then FillState([], false)
    else
      var prev := FillUpTo(lines, text, translated, n - 1);
      var line := if prev.toFill then Filled(lines[n - 1], translated) else lines[n - 1];
      FillState(prev.written + [line], Contains(line, text))
  }

  /** The lines `_fill_translation` writes back. */
  function FillLines(lines: seq<string>, text: string, translated: string): seq<string>
  {
    FillUpTo(lines, text, translated, |lines|).written
  }

  /** Later lines do not change what was already written. */
  lemma {:induction false} FillPrefix(lines: seq<string>, text: string, translated: string, m: nat, n: nat)
    requires m <= n <= |lines|
    ensures FillUpTo(lines, text, translated, n).written[..m] == FillUpTo(lines, text, translated, m).written
    decreases n
  {
    if m < n {
      FillPrefix(lines, text, translated, m, n - 1);
      var prev := FillUpTo(lines, text, translated, n - 1).written;
      assert FillUpTo(lines, text, translated, n).written[..m] == prev[..m];
    }
  }

  /** Line by line: a line is filled exactly when it follows a written line
      that holds the text, and is otherwise copied. */
  lemma FillLine(lines: seq<string>, text: string, translated: string, i: nat)
    requires i < |lines|
    ensures var r := FillLines(lines, text, translated);
      r[i] == if i > 0 && Contains(r[i - 1], text) then Filled(lines[i], translated) else lines[i]
  {
    var n := |lines|;
    var r := FillLines(lines, text, translated);
    FillPrefix(lines, text, translated, i + 1, n);
    assert r[i] == r[..i + 1][i];
    if i > 0 {
      FillPrefix(lines, text, translated, i, n);
      assert r[i - 1] == r[..i][i - 1];
    }
  }

  /** A catalogue in which the text never occurs is written back unchanged. */
  lemma {:induction false} FillWithoutText(lines: seq<string>, text: string, translated: string, n: nat)
    requires n <= |lines|
    requires forall i :: 0 <= i < |lines| ==> !Contains(lines[i], text)
    ensures FillUpTo(lines, text, translated, n) == FillState(lines[..n], false)
    decreases n
  {
    if n > 0 {
      FillWithoutText(lines, text, translated, n - 1);
      assert lines[..n - 1] + [lines[n - 1]] == lines[..n];
    }
  }

  /** An empty string `""` at the end of a line, after text without quotes,
      gets the translation. */
  lemma EmptyStringFilled(key: string, translated: string)
    requires '"' !in key
    ensures Filled(key + EmptyString + "\n", translated) == key + "\"" + translated + "\"\n"
  {
    var rep := "\"" + translated + "\"";
    var tail := EmptyString + "\n";
    assert key + EmptyString + "\n" == key + tail;
    ReplaceSkips(key, tail, EmptyString, rep);
    assert EmptyString <= tail && tail[|EmptyString|..] == "\n";
    assert Replace(tail, EmptyString, rep) == rep + Replace("\n", EmptyString, rep);
    assert !(EmptyString <= "\n") && "\n"[1..] == [];
    assert Replace("\n", EmptyString, rep) == "\n";
  }

  /** The empty translation `msgstr ""` right after the `msgid` line of the
      text receives the translation, as `_test_all` later reads it back. */
  lemma TranslationFilled(lines: seq<string>, text: string, translated: string, i: nat, key: string)
    requires i + 1 < |lines|
    requires Contains(lines[i], text)
    requires '"' !in key && lines[i + 1] == key + EmptyString + "\n"
    requires !Contains(lines[i], EmptyString)
    ensures FillLines(lines, text, translated)[i + 1] == key + "\"" + translated + "\"\n"
  {
    FillLine(lines, text, translated, i);
    ReplaceAbsent(lines[i], EmptyString, "\"" + translated + "\"");
    FillLine(lines, text, translated, i + 1);
    EmptyStringFilled(key, translated);
  }

  /** `_fill_translation` over the lines of the catalogue. */
  method FillTranslation(lines: seq<string>, text: string, translated: string) returns (written: seq<string>)
    ensures written == FillLines(lines, text, translated)
  {
    var toFill := false;
    written := [];
    for i := 0 to |lines|
      invariant FillState(written, toFill) == FillUpTo(lines, text, translated, i)
    {
      var line := lines[i];
      if toFill {
        line := Filled(line, translated);
        toFill := false;
      }
      if Contains(line, text) {
        toFill := true;
      }
      written := written + [line];
    }
  }

  /** The backup `fileinput` keeps while it rewrites a file in place. */
  function BackupOf(path: string): string
  {
    path + ".bak"
  }

  /** `_fill_translation` on the catalogue at `path`, rewritten in place.
      `fileinput` first removes any old backup, then renames the catalogue to
      it, and removes the backup again once the catalogue is written back. It
      returns false where the rename raises because the catalogue does not
      exist; the old backup is gone all the same. */
  method FillTranslationFile(fs: FileSystem, path: string, text: string, translated: string) returns (found: bool)
    modifies fs
    ensures found == (path in old(fs.files))
    ensures found ==> fs.files == old(fs.files)[path := Concat(FillLines(Lines(old(fs.files)[path]), text, translated))] - {BackupOf(path)}
    ensures !found ==> fs.files == old(fs.files) - {BackupOf(path)}
    ensures fs.dirs == old(fs.dirs)
  {
    var backup := BackupOf(path);
    assert |backup| > |path|;
    fs.Unlink(backup);
    var content := fs.Read(path);
    if content.None? {
      return false;
    }
    var written := FillTranslation(Lines(content.value), text, translated);
    fs.Write(path, Concat(written));
    assert fs.files == old(fs.files)[path := Concat(written)] - {backup};
    found := true;
  }

  /** How `_create_gettext_messages` ends. */
  datatype SetUpOutcome = Ready | CreatorRaised | CatalogueMissing

  /** The files `create_message_files` leaves: the synchronised catalogues
      when the template step succeeded, the files as they were otherwise. */
  function CreatedFiles(creator: MessageCreator, files: FileMap, run: ExtractorRun, merges: seq<ToolOutcome>): FileMap
    requires |merges| == |creator.languages|
  {
    var t := creator.ExtractTemplate(files, run);
    if t.ok then creator.SyncUpTo(t.files, merges, |creator.languages|).files else files
  }

  /** Whether `create_message_files` raises `MessageCreatorError`. */
  predicate CreatorRaises(creator: MessageCreator, files: FileMap, run: ExtractorRun, merges: seq<ToolOutcome>)
    requires |merges| == |creator.languages|
  {
    var t := creator.ExtractTemplate(files, run);
    t.ok && creator.SyncUpTo(t.files, merges, |creator.languages|).raised
  }

  /** The files after `_fill_translation` filled the catalogue at `path`. */
  function FilledFiles(files: FileMap, path: string, text: string, translated: string): FileMap
    requires path in files
  {
    files[path := Concat(FillLines(Lines(files[path]), text, translated))] - {BackupOf(path)}
  }

  /** `_create_gettext_messages`: create the catalogues, fill in the
      translation of `text` in the catalogue of `language`, then compile. An
      exception from either of the first two steps ends it there. The catalogue
      is found through the test class's own `localeDir` and `domain`, which need
      not be the creator's. */
  method CreateGettextMessages(fs: FileSystem, creator: MessageCreator, localeDir: string, domain: string,
                               run: ExtractorRun, merges: seq<ToolOutcome>, compiles: seq<ToolOutcome>,
                               language: string, text: string, translated: string)
    returns (outcome: SetUpOutcome, ran: seq<Command>)
    requires |merges| == |creator.languages| && |compiles| == |creator.languages|
    modifies fs
    ensures fs.dirs == old(fs.dirs) + creator.LanguageDirs(|creator.languages|)
    ensures outcome == CreatorRaised <==> CreatorRaises(creator, old(fs.files), run, merges)
    ensures var created, path := CreatedFiles(creator, old(fs.files), run, merges), MessageFileByLanguage(localeDir, domain, language);
      && (outcome == CreatorRaised ==> fs.files == created)
      && (outcome == CatalogueMissing <==> outcome != CreatorRaised && path !in created)
      && (outcome == CatalogueMissing ==> fs.files == created - {BackupOf(path)})
      && (outcome == Ready ==>
            fs.files == creator.CompileUpTo(FilledFiles(created, path, text, translated), compiles, |creator.languages|))
    ensures outcome == Ready ==>
      |ran| == |creator.languages| && forall i :: 0 <= i < |ran| ==> ran[i] == creator.CompileCommand(creator.languages[i])
    ensures outcome != Ready ==> ran == []
  {
    ran := [];
    var status := creator.CreateMessageFiles(fs, run, merges);
    if status == Aborted {
      return CreatorRaised, [];
    }
    var found := FillTranslationFile(fs, MessageFileByLanguage(localeDir, domain, language), text, translated);
    if !found {
      return CatalogueMissing, [];
    }
    ran := creator.GenerateMessageObjects(fs, compiles);
    outcome := Ready;
  }

  /** The lines of a catalogue make it up around any one of them. */
  lemma {:induction false} ConcatAround(lines: seq<string>, j: nat)
    requires j < |lines|
    ensures Concat(lines) == Concat(lines[..j]) + lines[j] + Concat(lines[j + 1..])
    decreases j
  {
    if j > 0 {
      ConcatAround(lines[1..], j - 1);
      assert lines[1..][..j - 1] == lines[1..j] && lines[1..][j - 1] == lines[j] && lines[1..][j..] == lines[j + 1..];
      assert lines[..j][1..] == lines[1..j];
    } else {
      assert lines[1..] == lines[j + 1..];
    }
  }

  /** After a set-up that got through, the catalogue the test reads holds the
      filled `msgstr` line: compiling only writes `.mo` files, so it keeps
      what `_fill_translation` wrote. */
  lemma SetUpFillsTranslation(creator: MessageCreator, created: FileMap, compiles: seq<ToolOutcome>,
                              localeDir: string, domain: string, language: string,
                              text: string, translated: string, i: nat, key: string)
    requires |compiles| == |creator.languages|
    requires var path := MessageFileByLanguage(localeDir, domain, language);
      && path in created
      && i + 1 < |Lines(created[path])|
      && Contains(Lines(created[path])[i], text)
      && !Contains(Lines(created[path])[i], EmptyString)
      && '"' !in key && Lines(created[path])[i + 1] == key + EmptyString + "\n"
    ensures var path := MessageFileByLanguage(localeDir, domain, language);
      var final := creator.CompileUpTo(FilledFiles(created, path, text, translated), compiles, |creator.languages|);
      path in final && Contains(final[path], key + "\"" + translated + "\"\n")
  {
    var path := MessageFileByLanguage(localeDir, domain, language);
    var filled := FillLines(Lines(created[path]), text, translated);
    var files := FilledFiles(created, path, text, translated);
    assert |BackupOf(path)| > |path| && path in files && files[path] == Concat(filled);
    forall l | 0 <= l < |creator.languages| ensures path != creator.MessageObjectFile(creator.languages[l]) {
      var mo := creator.MessageObjectFile(creator.languages[l]);
      assert path[|path| - 3..] == ".po" && mo[|mo| - 3..] == ".mo";
    }
    creator.CompileFrame(files, compiles, 0, |creator.languages|, path);
    TranslationFilled(Lines(created[path]), text, translated, i, key);
    ConcatAround(filled, i + 1);
    ContainsInfix(Concat(filled[..i + 1]), filled[i + 1], Concat(filled[i + 2..]));
  }

  // -----------------------------------------------------------------------
  // TestCaseMeta

  /** A class attribute: a plain function, or any other object (a class
      method, a static method, a constant). */
  datatype Attribute = Function(id: nat) | Other(id: nat)

  /** A class namespace as the metaclass looks names up and assigns them. */
  type Namespace = map<string, Attribute>

  /** One item of a base's `__dict__.items()`. */
  datatype Entry = Entry(key: string, value: Attribute)

  const HookPrefix := "_test_"

  /** The entry is a function whose name starts with `_test_`, to be exposed
      under the name `t`, its own name without the leading underscore. */
  predicate Supplies(e: Entry, t: string)
  {
    HookPrefix <= e.key && e.value.Function? && e.key[1..] == t
  }

  /** One iteration of the inner loop. */
  function Copy(d: Namespace, e: Entry): Namespace
  {
    if HookPrefix <= e.key && e.value.Function? && e.key[1..] !in d then d[e.key[1..] := e.value] else d
  }

  /** The namespace after the first `n` items of one base. */
  function CopyItems(d: Namespace, items: seq<Entry>, n: nat): Namespace
    requires n <= |items|
  {
    if n == 0 then d else Copy(CopyItems(d, items, n - 1), items[n - 1])
  }

  /** The namespace after all items of the first `n` bases. */
  function InheritUpTo(dct: Namespace, bases: seq<seq<Entry>>, n: nat): Namespace
    requires n <= |bases|
  {
    if n == 0 then dct else CopyItems(InheritUpTo(dct, bases, n - 1), bases[n - 1], |bases[n - 1]|)
  }

  /** The namespace `TestCaseMeta.__new__` hands on to `type.__new__`. */
  function MetaclassNamespace(name: string, bases: seq<seq<Entry>>, dct: Namespace): Namespace
  {
    if Contains(name, "Base") then dct else InheritUpTo(dct, bases, |bases|)
  }

  /** `TestCaseMeta.__new__`: for a class whose name lacks `Base`, walk the
      bases in order and each base's items in order, copying every `_test_`
      function to its public name unless that name is already taken. */
  method NewClassNamespace(name: string, bases: seq<seq<Entry>>, dct: Namespace) returns (result: Namespace)
    ensures result == MetaclassNamespace(name, bases, dct)
  {
    result := dct;
    if !Contains(name, "Base") {
      for i := 0 to |bases|
        invariant result == InheritUpTo(dct, bases, i)
      {
        var before := result;
        for j := 0 to |bases[i]|
          invariant result == CopyItems(before, bases[i], j)
        {
          var key, value := bases[i][j].key, bases[i][j].value;
          if HookPrefix <= key && value.Function? && key[1..] !in result {
            result := result[key[1..] := value];
          }
        }
      }
    }
  }

  // Within one base

  lemma {:induction false} ItemsKeep(d: Namespace, items: seq<Entry>, n: nat)
    requires n <= |items|
    ensures forall k :: k in d ==> k in CopyItems(d, items, n) && CopyItems(d, items, n)[k] == d[k]
  {
    if n > 0 {
      ItemsKeep(d, items, n - 1);
    }
  }

  lemma {:induction false} ItemsExpose(d: Namespace, items: seq<Entry>, n: nat)
    requires n <= |items|
    ensures forall j, t :: 0 <= j < n && Supplies(items[j], t) ==> t in CopyItems(d, items, n)
  {
    if n > 0 {
      ItemsExpose(d, items, n - 1);
      ItemsKeep(CopyItems(d, items, n - 1), [items[n - 1]], 1);
    }
  }

  lemma {:induction false} ItemsOnly(d: Namespace, items: seq<Entry>, n: nat, t: string)
    requires n <= |items|
    requires t in CopyItems(d, items, n) && t !in d
    ensures exists j :: 0 <= j < n && Supplies(items[j], t) && CopyItems(d, items, n)[t] == items[j].value
  {
    if n > 0 {
      if t in CopyItems(d, items, n - 1) {
        ItemsOnly(d, items, n - 1, t);
      } else {
        assert Supplies(items[n - 1], t);
      }
    }
  }

  lemma {:induction false} ItemsFirst(d: Namespace, items: seq<Entry>, n: nat, j: nat, t: string)
    requires j < n <= |items|
    requires Supplies(items[j], t) && t !in d
    requires forall j' :: 0 <= j' < j ==> !Supplies(items[j'], t)
    ensures t in CopyItems(d, items, n) && CopyItems(d, items, n)[t] == items[j].value
    decreases n
  {
    if n - 1 > j {
      ItemsFirst(d, items, n - 1, j, t);
    } else if t in CopyItems(d, items, j) {
      ItemsOnly(d, items, j, t);
    }
  }

  // Across the bases

  /** A name of the class's own namespace is never overwritten, and a class
      whose name contains `Base` is left exactly as it was. */
  lemma {:induction false} NeverOverwrites(name: string, bases: seq<seq<Entry>>, dct: Namespace, n: nat)
    requires n <= |bases|
    ensures forall k :: k in dct ==> k in InheritUpTo(dct, bases, n) && InheritUpTo(dct, bases, n)[k] == dct[k]
    ensures Contains(name, "Base") ==> MetaclassNamespace(name, bases, dct) == dct
  {
    if n > 0 {
      NeverOverwrites(name, bases, dct, n - 1);
      ItemsKeep(InheritUpTo(dct, bases, n - 1), bases[n - 1], |bases[n - 1]|);
    }
  }

  /** The public name of every `_test_` function of every base is bound
      afterwards; which function it holds is `FirstSupplierWins`' concern. */
  lemma {:induction false} HooksExposed(bases: seq<seq<Entry>>, dct: Namespace, n: nat)
    requires n <= |bases|
    ensures forall i, j, t :: 0 <= i < n && 0 <= j < |bases[i]| && Supplies(bases[i][j], t) ==>
              t in InheritUpTo(dct, bases, n)
  {
    if n > 0 {
      HooksExposed(bases, dct, n - 1);
      var before := InheritUpTo(dct, bases, n - 1);
      ItemsKeep(before, bases[n - 1], |bases[n - 1]|);
      ItemsExpose(before, bases[n - 1], |bases[n - 1]|);
    }
  }

  /** Nothing but the class's own names and copied functions appears. */
  lemma {:induction false} OnlyHooksAdded(bases: seq<seq<Entry>>, dct: Namespace, n: nat, t: string)
    requires n <= |bases|
    requires t in InheritUpTo(dct, bases, n) && t !in dct
    ensures exists i, j :: 0 <= i < n && 0 <= j < |bases[i]| && Supplies(bases[i][j], t)
                           && InheritUpTo(dct, bases, n)[t] == bases[i][j].value
  {
    if n > 0 {
      var before := InheritUpTo(dct, bases, n - 1);
      if t in before {
        OnlyHooksAdded(bases, dct, n - 1, t);
        ItemsKeep(before, bases[n - 1], |bases[n - 1]|);
      } else {
        ItemsOnly(before, bases[n - 1], |bases[n - 1]|, t);
      }
    }
  }

  /** The first function to supply a name, in base order and then item order,
      is the one exposed. */
  lemma {:induction false} FirstSupplierWins(bases: seq<seq<Entry>>, dct: Namespace, n: nat, i: nat, j: nat, t: string)
    requires i < n <= |bases| && j < |bases[i]|
    requires Supplies(bases[i][j], t) && t !in dct
    requires forall i', j' :: 0 <= i' < i && 0 <= j' < |bases[i']| ==> !Supplies(bases[i'][j'], t)
    requires forall j' :: 0 <= j' < j ==> !Supplies(bases[i][j'], t)
    ensures t in InheritUpTo(dct, bases, n) && InheritUpTo(dct, bases, n)[t] == bases[i][j].value
    decreases n
  {
    if n - 1 > i {
      FirstSupplierWins(bases, dct, n - 1, i, j, t);
      ItemsKeep(InheritUpTo(dct, bases, n - 1), bases[n - 1], |bases[n - 1]|);
    } else {
      var before := InheritUpTo(dct, bases, i);
      if t in before {
        OnlyHooksAdded(bases, dct, i, t);
      }
      ItemsFirst(before, bases[i], |bases[i]|, j, t);
    }
  }
}
