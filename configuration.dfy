/** How `MessageCreator.__init__` settles its domain, languages and locale
    directory: an explicit argument first, then the environment, then the
    built-in default. */
module Configuration {
  import opened Text

  const DomainVariable := "GETTEXT_DOMAIN"
  const LanguagesVariable := "GETTEXT_LANGUAGES"
  const LocaleDirVariable := "GETTEXT_LOCALE_DIR"

  /** The process environment, as `os.getenv` sees it. */
  type Environment = map<string, string>

  /** The built-in defaults (`GETTEXT_DEFAULT_DOMAIN`, `GETTEXT_DEFAULT_LANGUAGES`,
      `GETTEXT_DEFAULT_LOCALE_DIR`); their values are not part of this model. */
  datatype Defaults = Defaults(domain: string, languages: seq<string>, localeDir: string)

  /** `os.getenv(name, fallback)`. */
  function GetEnv(env: Environment, name: string, fallback: string): string
  {
    if name in env then env[name] else fallback
  }

  /** `argument or os.getenv(name, fallback)`: a non-empty argument wins; an
      environment value is taken even when it is empty. */
  function ResolveText(argument: string, env: Environment, name: string, fallback: string): (r: string)
    ensures argument != [] ==> r == argument
    ensures argument == [] && name in env ==> r == env[name]
    ensures argument == [] && name !in env ==> r == fallback
  {
    if argument != [] then argument else GetEnv(env, name, fallback)
  }

  /** `[item.strip() for item in items if item.strip()]`. */
  function NonBlankStripped(items: seq<string>): (r: seq<string>)
    ensures |r| <= |items|
    ensures forall i :: 0 <= i < |r| ==> Trimmed(r[i])
    decreases |items|
  {
    if items == [] then []
    else
      var head := Strip(items[0]);
      if head != [] then [head] + NonBlankStripped(items[1..]) else NonBlankStripped(items[1..])
  }

  /** Nothing is kept exactly when every item is blank once stripped. */
  lemma {:induction false} NonBlankStrippedEmpty(items: seq<string>)
    ensures NonBlankStripped(items) == [] <==> forall i :: 0 <= i < |items| ==> Strip(items[i]) == []
    decreases |items|
  {
    if items != [] {
      NonBlankStrippedEmpty(items[1..]);
      assert forall i :: 1 <= i < |items| ==> items[i] == items[1..][i - 1];
    }
  }

  /** The filter works item by item: the kept items of `a + b` are those of
      `a` followed by those of `b`, so the input's order is kept. */
  lemma {:induction false} NonBlankStrippedAppend(a: seq<string>, b: seq<string>)
    ensures NonBlankStripped(a + b) == NonBlankStripped(a) + NonBlankStripped(b)
    decreases |a|
  {
    if a == [] {
      assert a + b == b;
    } else {
      NonBlankStrippedAppend(a[1..], b);
      assert (a + b)[0] == a[0] && (a + b)[1..] == a[1..] + b;
    }
  }

  /** Each item that is not blank once stripped is kept, stripped, and the
      items before it are kept before it. */
  lemma NonBlankStrippedKeeps(items: seq<string>, i: nat)
    requires i < |items| && Strip(items[i]) != []
    ensures NonBlankStripped(items) ==
      NonBlankStripped(items[..i]) + [Strip(items[i])] + NonBlankStripped(items[i + 1..])
  {
    var tail := items[i..];
    assert items == items[..i] + tail;
    NonBlankStrippedAppend(items[..i], tail);
    assert tail[0] == items[i] && tail[1..] == items[i + 1..];
  }

  /** A character absent from every item is absent from every stripped item. */
  lemma {:induction false} StrippedAvoids(items: seq<string>, c: char)
    requires forall j :: 0 <= j < |items| ==> c !in items[j]
    ensures forall i :: 0 <= i < |NonBlankStripped(items)| ==> c !in NonBlankStripped(items)[i]
    decreases |items|
  {
    if items != [] {
      StrippedAvoids(items[1..], c);
      StripChars(items[0]);
    }
  }

  /** The languages named by a `GETTEXT_LANGUAGES` value: every item is
      non-empty, carries no surrounding whitespace and holds no comma. */
  function ParseLanguages(value: string): (r: seq<string>)
    ensures forall i :: 0 <= i < |r| ==> Trimmed(r[i]) && ',' !in r[i]
  {
    var items := Split(value, ',');
    StrippedAvoids(items, ',');
    NonBlankStripped(items)
  }

  /** Only commas and whitespace: a value that names no language. */
  predicate OnlySeparators(value: string)
  {
    forall k :: 0 <= k < |value| ==> value[k] == ',' || IsSpace(value[k])
  }

  /** A value names no language exactly when it holds only commas and
      whitespace. */
  lemma ParseEmptyIff(value: string)
    ensures ParseLanguages(value) == [] <==> OnlySeparators(value)
  {
    var items := Split(value, ',');
    if OnlySeparators(value) {
      AllBlank(value);
    } else if ParseLanguages(value) == [] {
      assert NonBlankStripped(items) == [];
      NonBlankStrippedEmpty(items);
      JoinSplit(value, ',');
      forall k | 0 <= k < |value| ensures value[k] == ',' || IsSpace(value[k]) {
        JoinChars(items, ',', k);
        if value[k] != ',' {
          var i :| 0 <= i < |items| && value[k] in items[i];
          StripBlank(items[i]);
          var j :| 0 <= j < |items[i]| && items[i][j] == value[k];
        }
      }
    }
  }

  /** Parsing a comma join keeps every piece that is not blank once stripped,
      stripped, in order: `"pl, de"` gives `pl` and `de`. */
  lemma ParseJoinedPieces(pieces: seq<string>)
    requires forall i :: 0 <= i < |pieces| ==> ',' !in pieces[i]
    ensures ParseLanguages(Join(pieces, ',')) == NonBlankStripped(pieces)
  {
    if pieces == [] {
      assert Split(Join(pieces, ','), ',') == [[]];
      assert NonBlankStripped([[]]) == [];
    } else {
      SplitJoin(pieces, ',');
    }
  }

  /** `argument or [parsed GETTEXT_LANGUAGES] or fallback`. Without an
      argument, the variable's languages are used unless it names none. */
  function ResolveLanguages(argument: seq<string>, env: Environment, fallback: seq<string>): (r: seq<string>)
    ensures |argument| > 0 ==> r == argument
    ensures |argument| == 0 && LanguagesVariable !in env ==> r == fallback
    ensures |argument| == 0 && LanguagesVariable in env && OnlySeparators(env[LanguagesVariable]) ==> r == fallback
    ensures |argument| == 0 && LanguagesVariable in env && !OnlySeparators(env[LanguagesVariable]) ==>
              r == ParseLanguages(env[LanguagesVariable]) && |r| > 0
    ensures r == argument || r == fallback || forall i :: 0 <= i < |r| ==> Trimmed(r[i]) && ',' !in r[i]
    ensures |argument| == 0 && r != fallback ==> |r| > 0
  {
    if |argument| > 0 then argument
    else
      var value := GetEnv(env, LanguagesVariable, "");
      var parsed := ParseLanguages(value);
      ParseEmptyIff(value);
      assert Split("", ',') == [[]];
      if |parsed| > 0 then parsed else fallback
  }

  /** Parsing undoes a comma join of clean language names. */
  lemma {:induction false} ParseJoined(languages: seq<string>)
    requires forall i :: 0 <= i < |languages| ==> Trimmed(languages[i]) && ',' !in languages[i]
    ensures ParseLanguages(Join(languages, ',')) == languages
  {
    var joined := Join(languages, ',');
    if languages == [] {
      assert Split(joined, ',') == [[]];
      assert NonBlankStripped([[]]) == [];
    } else {
      SplitJoin(languages, ',');
      KeepTrimmed(languages);
    }
    assert ParseLanguages(joined) == NonBlankStripped(Split(joined, ','));
  }

  lemma {:induction false} KeepTrimmed(items: seq<string>)
    requires forall i :: 0 <= i < |items| ==> Trimmed(items[i])
    ensures NonBlankStripped(items) == items
    decreases |items|
  {
    if items != [] {
      StripTrimmed(items[0]);
      KeepTrimmed(items[1..]);
      assert items == [items[0]] + items[1..];
    }
  }

  /** With no argument, `GETTEXT_LANGUAGES="pl, de"` names Polish and German,
      whatever the default: the space after the comma is stripped. */
  lemma PaddedLanguages(fallback: seq<string>)
    ensures ResolveLanguages([], map[LanguagesVariable := "pl, de"], fallback) == ["pl", "de"]
  {
    var pieces := ["pl", " de"];
    assert Join(pieces, ',') == "pl, de";
    ParseJoinedPieces(pieces);
    assert Strip(" de") == "de";
    assert NonBlankStripped(pieces) == ["pl", "de"];
  }

  /** With no argument, `GETTEXT_LANGUAGES="pl,de"` and the like give exactly
      the languages listed, whatever the default. */
  lemma LanguagesFromEnvironment(languages: seq<string>, env: Environment, fallback: seq<string>)
    requires |languages| > 0
    requires forall i :: 0 <= i < |languages| ==> Trimmed(languages[i]) && ',' !in languages[i]
    requires LanguagesVariable in env && env[LanguagesVariable] == Join(languages, ',')
    ensures ResolveLanguages([], env, fallback) == languages
  {
    ParseJoined(languages);
  }

  lemma {:induction false} AllBlank(value: string)
    requires forall i :: 0 <= i < |value| ==> value[i] == ',' || IsSpace(value[i])
    ensures ParseLanguages(value) == []
  {
    var items := Split(value, ',');
    JoinSplit(value, ',');
    BlankPieces(items);
  }

  lemma {:induction false} BlankPieces(items: seq<string>)
    requires forall i :: 0 <= i < |Join(items, ',')| ==> Join(items, ',')[i] == ',' || IsSpace(Join(items, ',')[i])
    requires forall i :: 0 <= i < |items| ==> ',' !in items[i]
    ensures NonBlankStripped(items) == []
    decreases |items|
  {
    if items != [] {
      var head := items[0];
      var joined := Join(items, ',');
      if |items| > 1 {
        var rest := Join(items[1..], ',');
        assert joined == head + [','] + rest;
        forall i | 0 <= i < |rest| ensures rest[i] == ',' || IsSpace(rest[i]) {
          assert rest[i] == joined[|head| + 1 + i];
        }
        BlankPieces(items[1..]);
      }
      forall i | 0 <= i < |head| ensures IsSpace(head[i]) {
        assert head[i] == joined[i];
        assert head[i] in head;
      }
      StripBlank(head);
    }
  }
}
