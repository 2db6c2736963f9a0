/**
 * The script end to end (index.js, lines 41-93): collect the keys used in
 * the theme's templates into the default dictionary (en.json), sort it, then
 * bring every other locale file up to date with the default keys and sort it.
 */
module Reconcile {
  import opened Seqs
  import opened Dictionary
  import opened Extract
  import opened Merge
  import opened Sorting
  import opened TreeWalk

  /** The keys the templates use, file after file, each file's in match order. */
  function TemplateKeys(files: seq<string>, readText: string -> string): seq<string>
  {
    if files == [] then []
    else TemplateKeys(files[..|files| - 1], readText) + ExtractKeys(readText(files[|files| - 1]))
  }

  /** A key found in one text is a clean key written out in full in that text. */
  lemma KeyFound(s: string, key: string)
    requires key in ExtractKeys(s)
    ensures IsCleanKey(key)
    ensures exists p: nat :: p <= |s| && OccursAt(s, p, Open + key + Close)
  {
    var k :| 0 <= k < |ExtractKeys(s)| && ExtractKeys(s)[k] == key;
    ExtractedKeyShape(s, k);
    assert Scan(s, 0)[k].start <= |s|;
  }

  /** Every key the templates use is a clean key written out in full in one of the templates. */
  lemma {:induction false} TemplateKeysFound(files: seq<string>, readText: string -> string, key: string)
    requires key in TemplateKeys(files, readText)
    ensures IsCleanKey(key)
    ensures exists f, p: nat :: f in files && p <= |readText(f)| && OccursAt(readText(f), p, Open + key + Close)
  {
    var init, f := files[..|files| - 1], files[|files| - 1];
    if key in TemplateKeys(init, readText) {
      TemplateKeysFound(init, readText, key);
      var g, p: nat :| g in init && p <= |readText(g)| && OccursAt(readText(g), p, Open + key + Close);
      assert g in files;
    } else {
      KeyFound(readText(f), key);
    }
  }

  /**
   * Lines 47-55: the text is searched for matches, each match is cut down
   * to its key, and a key with a falsy value maps to itself.
   */
  method MergeMatches(lang0: Dict, fileContent: string) returns (lang: Dict)
    ensures lang == MergeAll(lang0, ExtractKeys(fileContent))
  {
    lang := lang0;
    ghost var keys := ExtractKeys(fileContent);
    var matches := MatchTexts(fileContent);
    ReplaceYieldsKeys(fileContent);
    for m := 0 to |matches|
      invariant lang == MergeAll(lang0, keys[..m])
    {
      var key := ReplaceWithCapture(matches[m]);
      PrefixSnoc(keys, m);
      MergeAllSnoc(lang0, keys[..m], key);
      if !Truthy(Lookup(lang, key)) {
        lang := Put(lang, key, key);
      }
    }
    assert keys[..|matches|] == keys;
  }

  /** Lines 44-56: the keys of every template, file after file, merged into the default dictionary. */
  method CollectTemplateKeys(lang0: Dict, themeFiles: seq<string>, readText: string -> string)
    returns (lang: Dict)
    ensures lang == MergeAll(lang0, TemplateKeys(themeFiles, readText))
  {
    lang := lang0;
    for f := 0 to |themeFiles|
      invariant lang == MergeAll(lang0, TemplateKeys(themeFiles[..f], readText))
    {
      var fileContent := readText(themeFiles[f]);
      PrefixSnoc(themeFiles, f);
      MergeAllAppend(lang0, TemplateKeys(themeFiles[..f], readText), ExtractKeys(fileContent));
      lang := MergeMatches(lang, fileContent);
    }
    assert themeFiles[..|themeFiles|] == themeFiles;
  }

  /** Lines 79-84: the merge rule applied to an existing locale for each default key. */
  method MergeKeys(existing: Dict, keys: seq<string>) returns (d: Dict)
    ensures d == MergeAll(existing, keys)
  {
    d := existing;
    for i := 0 to |keys|
      invariant d == MergeAll(existing, keys[..i])
    {
      var key := keys[i];
      PrefixSnoc(keys, i);
      MergeAllSnoc(existing, keys[..i], key);
      if !Truthy(Lookup(d, key)) {
        d := Put(d, key, key);
      }
    }
    assert keys[..|keys|] == keys;
  }

  /** A dictionary merged with keys, then sorted and rebuilt (lines 57 and 86). */
  function Reconciled(d: Dict, keys: seq<string>, cmp: (string, string) -> int): Dict
  {
    SortRebuild(MergeAll(d, keys), cmp)
  }

  /**
   * The outcome for one dictionary: a key of keys whose value was absent or
   * empty maps to itself, every other key keeps its value, nothing is lost
   * or duplicated, and the keys come out in comparator order.
   */
  lemma ReconciledSpec(d: Dict, keys: seq<string>, cmp: (string, string) -> int)
    requires WellFormed(d)
    ensures forall k ::
              Lookup(Reconciled(d, keys, cmp), k) == if k in keys && !Truthy(Lookup(d, k)) then Some(k) else Lookup(d, k)
    ensures forall k :: k in Keys(Reconciled(d, keys, cmp)) <==> k in Keys(d) || k in keys
    ensures WellFormed(Reconciled(d, keys, cmp))
    ensures TotalPreorder(cmp) ==> SortedBy(Keys(Reconciled(d, keys, cmp)), cmp)
  {
    var m := MergeAll(d, keys);
    MergeAllKeys(d, keys);
    MergeAllWellFormed(d, keys);
    SortRebuildSamePairs(m, cmp);
    forall k ensures Lookup(Reconciled(d, keys, cmp), k) ==
      (if k in keys && !Truthy(Lookup(d, k)) then Some(k) else Lookup(d, k))
    {
      MergeAllLookup(d, keys, k);
    }
    forall k ensures k in Keys(Reconciled(d, keys, cmp)) <==> k in Keys(d) || k in keys {
      assert k in Keys(Reconciled(d, keys, cmp)) <==> Lookup(Reconciled(d, keys, cmp), k).Some?;
      assert k in Keys(m) <==> Lookup(m, k).Some?;
    }
    if TotalPreorder(cmp) {
      SortRebuildOrdered(m, cmp);
    }
  }

  /** Running the script again on its own output changes nothing. */
  lemma ReconciledIdempotent(d: Dict, keys: seq<string>, cmp: (string, string) -> int)
    requires WellFormed(d) && TotalPreorder(cmp)
    ensures Reconciled(Reconciled(d, keys, cmp), keys, cmp) == Reconciled(d, keys, cmp)
  {
    var m := MergeAll(d, keys);
    var r := Reconciled(d, keys, cmp);
    MergeAllKeys(d, keys);
    MergeAllWellFormed(d, keys);
    ReconciledSpec(d, keys, cmp);
    assert Settled(r, keys);
    MergeAllSettled(r, keys);
    SortRebuildIdempotent(m, cmp);
  }

  predicate EndsWith(s: string, suffix: string)
  {
    |suffix| <= |s| && s[|s| - |suffix|..] == suffix
  }

  /** Lines 69-75: a locale file is updated when it ends in `.json` but not in `en.json`. */
  predicate IsUpdatedLocale(path: string)
  {
    EndsWith(path, ".json") && !EndsWith(path, "en.json")
  }

  /** The locale files that are updated, in listing order. */
  function Selected(files: seq<string>): (sel: seq<string>)
    ensures |sel| <= |files|
  {
    if files == [] then []
    else
      var init, f := files[..|files| - 1], files[|files| - 1];
      if IsUpdatedLocale(f) then Selected(init) + [f] else Selected(init)
  }

  lemma {:induction false} SelectedMembers(files: seq<string>, p: string)
    ensures p in Selected(files) <==> p in files && IsUpdatedLocale(p)
  {
    if files != [] {
      var init, f := files[..|files| - 1], files[|files| - 1];
      SelectedMembers(init, p);
      assert files == init + [f];
    }
  }

  /** The suffix test on a few names: `ben.json` and `ten.json` are skipped along with `en.json`. */
  lemma SuffixExamples()
    ensures IsUpdatedLocale("lang/fr.json")
    ensures !IsUpdatedLocale("lang/en.json")
    ensures !IsUpdatedLocale("lang/ben.json")
    ensures !IsUpdatedLocale("lang/ten.json")
    ensures !IsUpdatedLocale("lang/validation.php")
  {
    assert "lang/fr.json"[7..] == ".json";
    assert "lang/fr.json"[5] != 'e';
    assert "lang/en.json"[5..] == "en.json";
    assert "lang/ben.json"[6..] == "en.json";
    assert "lang/ten.json"[6..] == "en.json";
    assert "lang/validation.php"[14] == 'n';
  }

  /** One locale file written back: its path and its new contents. */
  datatype Written = Written(path: string, dict: Dict)

  /** What lines 67-91 write, given what `require(file)` parses each locale file to. */
  function LocaleUpdates(keys: seq<string>, files: seq<string>, read: string -> Dict,
                         cmp: (string, string) -> int): seq<Written>
  {
    if files == [] then []
    else
      var init, f := files[..|files| - 1], files[|files| - 1];
      var prev := LocaleUpdates(keys, init, read, cmp);
      if IsUpdatedLocale(f) then prev + [Written(f, Reconciled(read(f), keys, cmp))] else prev
  }

  function Paths(ws: seq<Written>): seq<string>
  {
    if ws == [] then [] else Paths(ws[..|ws| - 1]) + [ws[|ws| - 1].path]
  }

  /**
   * Exactly the selected locale files are written, once each in listing
   * order, and each receives its own contents merged with the default keys
   * and sorted.
   */
  lemma {:induction false} LocaleUpdatesSpec(keys: seq<string>, files: seq<string>,
                                             read: string -> Dict, cmp: (string, string) -> int)
    ensures Paths(LocaleUpdates(keys, files, read, cmp)) == Selected(files)
    ensures |LocaleUpdates(keys, files, read, cmp)| == |Selected(files)|
    ensures forall w :: w in LocaleUpdates(keys, files, read, cmp) ==>
      w.dict == Reconciled(read(w.path), keys, cmp)
  {
    if files != [] {
      var init, f := files[..|files| - 1], files[|files| - 1];
      LocaleUpdatesSpec(keys, init, read, cmp);
      var ws := LocaleUpdates(keys, files, read, cmp);
      if IsUpdatedLocale(f) {
        assert ws[..|ws| - 1] == LocaleUpdates(keys, init, read, cmp);
      }
    }
  }

  /**
   * Lines 64-91: every listed `.json` file other than `en.json` is read,
   * given every default key, sorted and written back, and counted.
   */
  method UpdateLocaleFiles(lang: Dict, langFiles: seq<string>, read: string -> Dict,
                           cmp: (string, string) -> int)
    returns (written: seq<Written>, filesUpdated: nat)
    ensures written == LocaleUpdates(Keys(lang), langFiles, read, cmp)
    ensures filesUpdated == |written| == |Selected(langFiles)|
  {
    written := [];
    filesUpdated := 0;
    for i := 0 to |langFiles|
      invariant written == LocaleUpdates(Keys(lang), langFiles[..i], read, cmp)
      invariant filesUpdated == |written|
    {
      var file := langFiles[i];
      PrefixSnoc(langFiles, i);
      if !EndsWith(file, ".json") {
        continue;
      }
      if EndsWith(file, "en.json") {
        continue;
      }
      var existingLang := read(file);
      existingLang := MergeKeys(existingLang, Keys(lang));
      existingLang := SortRebuild(existingLang, cmp);
      written := written + [Written(file, existingLang)];
      filesUpdated := filesUpdated + 1;
    }
    assert langFiles[..|langFiles|] == langFiles;
    LocaleUpdatesSpec(Keys(lang), langFiles, read, cmp);
  }

  /**
   * The whole script: list the theme's templates, collect their keys into
   * the default dictionary and sort it (what en.json receives), then list
   * the lang directory and update the other locales.
   */
  method Run(en: Dict, themeDir: string, themeTree: seq<Node>, readText: string -> string,
             langDir: string, langTree: seq<Node>, read: string -> Dict,
             cmp: (string, string) -> int)
    returns (lang: Dict, written: seq<Written>, filesUpdated: nat)
    ensures lang == Reconciled(en, TemplateKeys(Listing(themeDir, themeTree), readText), cmp)
    ensures written == LocaleUpdates(Keys(lang), Listing(langDir, langTree), read, cmp)
    ensures filesUpdated == |written|
  {
    var themeFiles := ReadDir(themeDir, themeTree);
    lang := CollectTemplateKeys(en, themeFiles, readText);
    lang := SortRebuild(lang, cmp);
    var langFiles := ReadDir(langDir, langTree);
    written, filesUpdated := UpdateLocaleFiles(lang, langFiles, read, cmp);
  }

  /**
   * A written locale holds every key it was merged with: one it had with a
   * non-empty value keeps that value, any other maps to itself.
   */
  lemma WrittenLocale(keys: seq<string>, files: seq<string>, read: string -> Dict,
                      cmp: (string, string) -> int, w: Written, k: string)
    requires w in LocaleUpdates(keys, files, read, cmp) && k in keys
    requires WellFormed(read(w.path))
    ensures w.path in files && IsUpdatedLocale(w.path)
    ensures Lookup(w.dict, k) == if Truthy(Lookup(read(w.path), k)) then Lookup(read(w.path), k) else Some(k)
  {
    LocaleUpdatesSpec(keys, files, read, cmp);
    PathsSelected(keys, files, read, cmp, w);
    SelectedMembers(files, w.path);
    ReconciledSpec(read(w.path), keys, cmp);
  }

  /**
   * After a run, the default dictionary holds every template key, and every
   * written locale holds every default key.
   */
  lemma RunOutcome(en: Dict, templateKeys: seq<string>, files: seq<string>,
                   read: string -> Dict, cmp: (string, string) -> int)
    requires WellFormed(en)
    requires forall f :: f in files ==> WellFormed(read(f))
    ensures forall k :: k in templateKeys ==> k in Keys(Reconciled(en, templateKeys, cmp))
    ensures forall w, k ::
              (w in LocaleUpdates(Keys(Reconciled(en, templateKeys, cmp)), files, read, cmp) &&
               k in Keys(Reconciled(en, templateKeys, cmp))) ==> k in Keys(w.dict)
  {
    var lang := Reconciled(en, templateKeys, cmp);
    ReconciledSpec(en, templateKeys, cmp);
    forall w, k | w in LocaleUpdates(Keys(lang), files, read, cmp) && k in Keys(lang)
      ensures k in Keys(w.dict)
    {
      PathsSelected(Keys(lang), files, read, cmp, w);
      SelectedMembers(files, w.path);
      WrittenLocale(Keys(lang), files, read, cmp, w, k);
    }
  }

  lemma PathsSelected(keys: seq<string>, files: seq<string>, read: string -> Dict,
                      cmp: (string, string) -> int, w: Written)
    requires w in LocaleUpdates(keys, files, read, cmp)
    ensures w.path in Selected(files)
  {
    LocaleUpdatesSpec(keys, files, read, cmp);
    PathsMembers(LocaleUpdates(keys, files, read, cmp), w);
  }

  lemma {:induction false} PathsMembers(ws: seq<Written>, w: Written)
    requires w in ws
    ensures w.path in Paths(ws)
  {
    if w != ws[|ws| - 1] {
      assert ws == ws[..|ws| - 1] + [ws[|ws| - 1]];
      PathsMembers(ws[..|ws| - 1], w);
    }
  }
}
