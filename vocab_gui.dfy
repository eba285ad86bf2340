/**
 * The "Add" handler of the add-word window: validates the word field, asks the
 * store whether the word exists, and then inserts, inserts a duplicate, or
 * overwrites the cache slot of the existing word, before saving the whole cache.
 * The text-field values and the answer to the Yes/No dialog are parameters; so
 * are the write failures of the store.
 */
module VocabGui {
  import opened VocabDb

  /** Python's `str.isspace` for one character: the characters `str.strip()` removes. */
  predicate IsSpace(c: char)
  {
    var n := c as int;
    || 0x09 <= n <= 0x0D
    || 0x1C <= n <= 0x20
    || n == 0x85 || n == 0xA0 || n == 0x1680
    || 0x2000 <= n <= 0x200A
    || n == 0x2028 || n == 0x2029 || n == 0x202F || n == 0x205F || n == 0x3000
  }

  /** Leading whitespace removed: the longest whitespace prefix goes, the rest is kept. */
  function LStrip(s: string): (r: string)
    ensures |r| <= |s| && r == s[|s| - |r|..]
    ensures forall i :: 0 <= i < |s| - |r| ==> IsSpace(s[i])
    ensures r != [] ==> !IsSpace(r[0])
  {
    if s != [] && IsSpace(s[0]) then LStrip(s[1..]) else s
  }

  /** Trailing whitespace removed: the longest whitespace suffix goes, the rest is kept. */
  function RStrip(s: string): (r: string)
    ensures |r| <= |s| && r == s[..|r|]
    ensures forall i :: |r| <= i < |s| ==> IsSpace(s[i])
    ensures r != [] ==> !IsSpace(r[|r| - 1])
  {
    if s != [] && IsSpace(s[|s| - 1]) then RStrip(s[..|s| - 1]) else s
  }

  /** Every character is whitespace (the empty string included). */
  predicate Blank(t: string)
  {
    forall i :: 0 <= i < |t| ==> IsSpace(t[i])
  }

  /**
   * A suffix `l` of `s` and a prefix `r` of `l` cut `s` into three consecutive
   * pieces; whitespace before `l` and after `r` makes the outer pieces blank.
   */
  lemma SliceSplit(s: string, l: string, r: string)
    requires |l| <= |s| && l == s[|s| - |l|..]
    requires |r| <= |l| && r == l[..|r|]
    requires forall i :: 0 <= i < |s| - |l| ==> IsSpace(s[i])
    requires forall i :: |r| <= i < |l| ==> IsSpace(l[i])
    ensures s == s[..|s| - |l|] + r + l[|r|..]
    ensures Blank(s[..|s| - |l|]) && Blank(l[|r|..])
    ensures r != [] ==> r[0] == l[0]
  {
    assert l == r + l[|r|..];
    assert s == s[..|s| - |l|] + l;
  }

  /**
   * Python's `str.strip()` with no argument: `s` is a whitespace prefix, the
   * result and a whitespace suffix, and the result neither starts nor ends
   * with whitespace.
   */
  function Strip(s: string): (r: string)
    ensures exists p, q :: s == p + r + q && Blank(p) && Blank(q)
    ensures |r| <= |s|
    ensures r != [] ==> !IsSpace(r[0]) && !IsSpace(r[|r| - 1])
  {
    var l := LStrip(s);
    var r := RStrip(l);
    SliceSplit(s, l, r);
    var p, q := s[..|s| - |l|], l[|r|..];
    assert s == p + r + q && Blank(p) && Blank(q);
    r
  }

  /** `not word.strip()` holds exactly when every character of the word is whitespace (the empty word included). */
  lemma StripBlankIff(s: string)
    ensures Strip(s) == [] <==> forall i :: 0 <= i < |s| ==> IsSpace(s[i])
  {
    var l := LStrip(s);
    if l != [] {
      assert !IsSpace(l[0]);
      assert s[|s| - |l|] == l[0];
    }
  }

  /** How the handler ends: rejected input, an error raised by the store, or saved. */
  datatype AddResult = Rejected | InsertFailed | SaveFailed | Saved

  /** The closing `save_data()` call: `before` saved, or left as it was when the save fails. */
  ghost predicate SaveStep(before: Store, saveFails: bool, r: AddResult, after: Store)
    requires Consistent(before)
  {
    if saveFails then r == SaveFailed && after == before
    else r == Saved && after == Save(before)
  }

  /**
   * `add_word_data`: a blank word is rejected with no change. An absent word,
   * or a present one the user does not want to update, is inserted (a
   * deliberate duplicate in the second case). A present word the user wants to
   * update has its entry written into the cache slot of the id the table
   * resolves for it. Every accepted path then saves once, unless the insert
   * raised first. Definition and note are not validated.
   */
  method AddWordData(db: VocabularyDatabase, word: string, definition: string, note: string,
                     userSaysYes: bool, insertFails: bool, saveFails: bool) returns (r: AddResult)
    requires db.Valid()
    modifies db
    ensures db.Valid()
    ensures r == Rejected <==> Strip(word) == []
    ensures r == Rejected ==> db.State() == old(db.State())
    ensures Strip(word) != [] && (!HasWord(old(db.table.rows), word) || !userSaysYes) ==>
      if insertFails then r == InsertFailed && db.State() == old(db.State())
      else
        Consistent(AddNew(old(db.State()), Entry(word, definition, note)))
        && SaveStep(AddNew(old(db.State()), Entry(word, definition, note)), saveFails, r, db.State())
    ensures Strip(word) != [] && HasWord(old(db.table.rows), word) && userSaysYes ==>
      var s := SetItem(old(db.State()), ResolveId(old(db.table.rows), word), Entry(word, definition, note));
      Consistent(s) && SaveStep(s, saveFails, r, db.State())
  {
    if Strip(word) == [] {
      // the error message box; nothing else happens
      return Rejected;
    }
    var existing := db.CheckWordExists(word);
    if existing && userSaysYes {
      // The handler calls `updata_data`, a name the store does not define, so as
      // written this branch raises AttributeError before writing anything; the
      // intended call to `update_data` is modelled.
      var wordId := db.UpdateData(word);
      assert Consistent(SetItem(db.State(), wordId, Entry(word, definition, note))) by {
        ResolveIdIsLowest(db.table, word);
        SetItemConsistent(db.State(), wordId, Entry(word, definition, note));
      }
      // `vocab_db.word_data[word_id] = {...}`: a direct write into the cache
      db.wordData, db.keyOrder := db.wordData[wordId := Entry(word, definition, note)],
        if wordId in db.wordData then db.keyOrder else db.keyOrder + [wordId];
    } else {
      // the word is absent, or the user declined to update it
      assert !HasWord(db.table.rows, word) || !userSaysYes;
      var ok := db.AddNewWord(word, definition, note, insertFails);
      if !ok {
        return InsertFailed;
      }
      assert Consistent(AddNew(old(db.State()), Entry(word, definition, note))) by {
        AddNewFresh(old(db.State()), Entry(word, definition, note));
      }
    }
    var saved := db.SaveData(saveFails);
    r := if saved then Saved else SaveFailed;
  }

  /**
   * Right after construction cache keys are table ids, so "update" overwrites
   * the entry of the word's first row in place: the cache keeps its keys and
   * the next save writes as many rows as before.
   */
  lemma UpdateAfterLoadOverwrites(t: Table, w: string, e: Entry)
    requires WellFormed(t)
    requires exists i :: 0 <= i < |t.rows| && t.rows[i].entry.word == w
    ensures var s, id := Loaded(t), ResolveId(t.rows, w);
      && id in s.wordData
      && Consistent(SetItem(s, id, e))
      && SetItem(s, id, e).wordData.Keys == s.wordData.Keys
      && |Save(SetItem(s, id, e)).table.rows| == |t.rows|
  {
    var s, id := Loaded(t), ResolveId(t.rows, w);
    assert Consistent(s) && |s.wordData| == |t.rows| && id in s.wordData && 1 <= id < s.table.nextId by {
      LoadedConsistent(t);
      ResolveIdIsLowest(t, w);
    }
    OverwriteThenSave(s, id, e);
  }

  /** Overwriting a slot and then saving writes one row per key of the overwritten cache. */
  lemma OverwriteThenSave(s: Store, id: int, e: Entry)
    requires Consistent(s)
    requires 1 <= id < s.table.nextId
    ensures Consistent(SetItem(s, id, e))
    ensures SetItem(s, id, e).wordData.Keys == s.wordData.Keys + {id}
    ensures |Save(SetItem(s, id, e)).table.rows| == |SetItem(s, id, e).wordData|
    ensures id in s.wordData ==> |SetItem(s, id, e).wordData| == |s.wordData|
    ensures id !in s.wordData ==> |SetItem(s, id, e).wordData| == |s.wordData| + 1
  {
    SetItemConsistent(s, id, e);
    SaveWritesCache(SetItem(s, id, e));
  }

  /**
   * After any save, cache keys are no longer table ids, so "update" resolves an
   * id the cache lacks: the cache entry the user meant to update stays as it
   * was, and the new entry is added under a new key at the end.
   */
  lemma UpdateAfterSaveAddsKey(s: Store, w: string, e: Entry)
    requires Consistent(s)
    requires exists i :: 0 <= i < |Save(s).table.rows| && Save(s).table.rows[i].entry.word == w
    ensures var saved := Save(s);
      var id := ResolveId(saved.table.rows, w);
      && id !in s.wordData
      && Consistent(SetItem(saved, id, e))
      && SetItem(saved, id, e).keyOrder == s.keyOrder + [id]
      && (forall k :: k in s.wordData ==> SetItem(saved, id, e).wordData[k] == s.wordData[k])
      && |SetItem(saved, id, e).wordData| == |s.wordData| + 1
      && exists i :: 0 <= i < |s.keyOrder| && s.wordData[s.keyOrder[i]].word == w
  {
    var saved := Save(s);
    var id := ResolveId(saved.table.rows, w);
    var i0 :| 0 <= i0 < |saved.table.rows| && saved.table.rows[i0].id == id && saved.table.rows[i0].entry.word == w;
    assert Consistent(saved) && id !in s.wordData && 1 <= id < saved.table.nextId
           && |saved.table.rows| == |s.keyOrder| && s.wordData[s.keyOrder[i0]].word == w by {
      SaveWritesCache(s);
      SaveRekeysCache(s);
      ResolveIdIsLowest(saved.table, w);
    }
    SetItemConsistent(saved, id, e);
  }

  /**
   * ... and the next save then writes the word twice: the table gains a row
   * where the user asked for an update.
   */
  lemma UpdateAfterSaveDuplicates(s: Store, w: string, e: Entry)
    requires Consistent(s)
    requires e.word == w
    requires exists i :: 0 <= i < |Save(s).table.rows| && Save(s).table.rows[i].entry.word == w
    ensures var saved := Save(s);
      var id := ResolveId(saved.table.rows, w);
      Consistent(SetItem(saved, id, e)) &&
      var rows := Save(SetItem(saved, id, e)).table.rows;
      && |rows| == |s.wordData| + 1
      && exists i, j :: 0 <= i < j < |rows| && rows[i].entry.word == w && rows[j].entry.word == w
  {
    var saved := Save(s);
    var id := ResolveId(saved.table.rows, w);
    var s' := SetItem(saved, id, e);
    assert && Consistent(s') && s'.keyOrder == s.keyOrder + [id] && |s'.wordData| == |s.wordData| + 1
           && (forall k :: k in s.wordData ==> s'.wordData[k] == s.wordData[k])
           && exists i :: 0 <= i < |s.keyOrder| && s.wordData[s.keyOrder[i]].word == w by {
      UpdateAfterSaveAddsKey(s, w, e);
    }
    var i0 :| 0 <= i0 < |s.keyOrder| && s.wordData[s.keyOrder[i0]].word == w;
    var n := |s.keyOrder|;
    assert s'.keyOrder[i0] == s.keyOrder[i0] && s'.keyOrder[n] == id;
    var k0 := s.keyOrder[i0];
    assert s'.wordData[k0] == s.wordData[k0] && s'.wordData[id] == e;
    var rows := Save(s').table.rows;
    assert |rows| == n + 1;
    assert rows[i0].entry == s'.wordData[s'.keyOrder[i0]];
    assert rows[n].entry == s'.wordData[s'.keyOrder[n]];
  }
}
