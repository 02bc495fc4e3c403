/** go/pkg/repository/text_repository.go: exact (key, language) lookup of translated texts. */
module TextRepository {
  import opened Wrappers
  import opened Models
  import opened Repository

  /**
   * The row a single-row query `WHERE key = $1 AND language = $2` yields: the
   * first row of the table with exactly that key and that language.
   */
  function FirstMatch(rows: seq<TranslatedText>, key: string, language: string): (r: Option<TranslatedText>)
    ensures r.Some? ==> r.value in rows && r.value.key == key && r.value.language == language
    ensures r.None? <==> !HasText(rows, key, language)
  {
    if rows == [] then None
    else if rows[0].key == key && rows[0].language == language then Some(rows[0])
    else
      var r := FirstMatch(rows[1..], key, language);
      assert HasText(rows, key, language) ==> HasText(rows[1..], key, language) by {
        if HasText(rows, key, language) {
          var i :| 0 <= i < |rows| && rows[i].key == key && rows[i].language == language;
          assert rows[1..][i - 1] == rows[i];
        }
      }
      assert HasText(rows[1..], key, language) ==> HasText(rows, key, language) by {
        if HasText(rows[1..], key, language) {
          var i :| 0 <= i < |rows[1..]| && rows[1..][i].key == key && rows[1..][i].language == language;
          assert rows[i + 1] == rows[1..][i];
        }
      }
      r
  }

  /** With unique natural keys, the row found for (key, language) is the one stored under that pair. */
  lemma {:induction false} FirstMatchIsTheRow(rows: seq<TranslatedText>, i: nat)
    requires UniqueNaturalKeys(rows)
    requires i < |rows|
    ensures FirstMatch(rows, rows[i].key, rows[i].language) == Some(rows[i])
  {
    if i > 0 {
      assert rows[0].key != rows[i].key || rows[0].language != rows[i].language;
      assert rows[1..][i - 1] == rows[i];
      FirstMatchIsTheRow(rows[1..], i - 1);
    }
  }

  /**
   * Appending a row changes the lookup of no other (key, language) pair, and
   * makes the appended row the answer for its own pair when it was absent.
   */
  lemma {:induction false} FirstMatchAppend(rows: seq<TranslatedText>, row: TranslatedText, key: string, language: string)
    ensures FirstMatch(rows + [row], key, language) ==
              if FirstMatch(rows, key, language).Some? then FirstMatch(rows, key, language)
              else if row.key == key && row.language == language then Some(row)
              else None
  {
    if rows != [] {
      assert (rows + [row])[1..] == rows[1..] + [row];
      FirstMatchAppend(rows[1..], row, key, language);
    }
  }

  class TextRepo {
    const db: Db
    var fault: Fault

    constructor (db: Db)
      ensures this.db == db && fault == Healthy
    {
      this.db := db;
      fault := Healthy;
    }

    /**
     * Looks a text up by exact key and exact language. A missing row is
     * `ErrNotFound`; a failing query or scan is a wrapped error.
     */
    function Find(key: string, language: string): (r: Result<TranslatedText, RepoError>)
      reads this, db
      ensures r.Success? <==> fault.Healthy? && HasText(db.translatedTexts, key, language)
      ensures r.Success? ==> r.value in db.translatedTexts && r.value.key == key && r.value.language == language
      ensures r == Failure(ErrNotFound) <==> !fault.Unreachable? && !HasText(db.translatedTexts, key, language)
      ensures r.Failure? && r.error != ErrNotFound ==>
                !fault.Healthy? && r.error == Wrapped("Failed to query translated_text: " + language, fault.cause)
    {
      if fault.Unreachable? then
        Failure(Wrapped("Failed to query translated_text: " + language, fault.cause))
      else
        match FirstMatch(db.translatedTexts, key, language)
        case None => Failure(ErrNotFound)
        case Some(t) =>
          if fault.BadRow? then Failure(Wrapped("Failed to query translated_text: " + language, fault.cause))
          else Success(t)
    }

    /**
     * Inserts `text`'s key, language and value with both timestamps set to
     * `now`; the row's id is the next value of the id sequence, which the
     * insert draws even when it is then rejected. Fails, changing no table,
     * when the database is unreachable or the (key, language) pair is taken.
     */
    method Save(text: TranslatedText, now: int) returns (err: Option<RepoError>)
      requires db.Valid()
      modifies db
      ensures db.Valid()
      ensures fault.Unreachable? ==> err == Some(Wrapped("Failed to insert translated_text: key=" + text.key, fault.cause))
      ensures !fault.Unreachable? && HasText(old(db.translatedTexts), text.key, text.language) ==>
                err == Some(Wrapped("Failed to insert translated_text: key=" + text.key, UniqueViolation))
      ensures err.None? <==> !fault.Unreachable? && !HasText(old(db.translatedTexts), text.key, text.language)
      ensures db.textIdSeq == if fault.Unreachable? then old(db.textIdSeq) else old(db.textIdSeq) + 1
      ensures db.translatedTexts ==
                if err.None? then
                  old(db.translatedTexts) + [TranslatedText(db.textIdSeq, text.key, text.language, text.value, now, now)]
                else old(db.translatedTexts)
      ensures db.languages == old(db.languages) && db.textGroups == old(db.textGroups)
      ensures db.memberships == old(db.memberships)
      ensures err.None? && fault.Healthy? ==>
                Find(text.key, text.language).Success? && Find(text.key, text.language).value.value == text.value
    {
      if fault.Unreachable? {
        return Some(Wrapped("Failed to insert translated_text: key=" + text.key, fault.cause));
      }
      db.textIdSeq := db.textIdSeq + 1;
      if FirstMatch(db.translatedTexts, text.key, text.language).Some? {
        return Some(Wrapped("Failed to insert translated_text: key=" + text.key, UniqueViolation));
      }
      ghost var before := db.translatedTexts;
      var row := TranslatedText(db.textIdSeq, text.key, text.language, text.value, now, now);
      db.translatedTexts := db.translatedTexts + [row];
      forall i, j | 0 <= i < j < |db.translatedTexts|
        ensures db.translatedTexts[i].key != db.translatedTexts[j].key || db.translatedTexts[i].language != db.translatedTexts[j].language
      {
        if j == |before| {
          assert db.translatedTexts[i] == before[i];
        }
      }
      FirstMatchAppend(before, row, text.key, text.language);
      return None;
    }
  }
}
