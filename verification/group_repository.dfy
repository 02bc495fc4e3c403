/** go/pkg/repository/group_repository.go: groups of text keys and the texts of a group. */
module GroupRepository {
  import opened Wrappers
  import opened Models
  import opened Repository

  /**
   * The rows of the query that joins `translated_text` with
   * `text_group_membership` on the text key and keeps the rows of one group
   * and one language, listed in table order.
   */
  function Join(rows: seq<TranslatedText>, memberships: set<(string, string)>, groupId: string, language: string): seq<TranslatedText>
  {
    if rows == [] then []
    else
      var rest := Join(rows[1..], memberships, groupId, language);
      if rows[0].language == language && (rows[0].key, groupId) in memberships then [rows[0]] + rest else rest
  }

  /**
   * The join keeps exactly the rows in `language` whose key is a member of
   * the group, and no more rows than the table has.
   */
  lemma {:induction false} JoinSelects(rows: seq<TranslatedText>, memberships: set<(string, string)>, groupId: string, language: string)
    ensures forall t :: t in Join(rows, memberships, groupId, language) <==>
              t in rows && t.language == language && (t.key, groupId) in memberships
    ensures |Join(rows, memberships, groupId, language)| <= |rows|
  {
    if rows != [] {
      JoinSelects(rows[1..], memberships, groupId, language);
      assert forall t :: t in rows <==> t == rows[0] || t in rows[1..];
    }
  }

  /**
   * With unique (key, language) pairs, the rows of one language's join carry
   * pairwise distinct keys.
   */
  lemma {:induction false} JoinKeysDistinct(rows: seq<TranslatedText>, memberships: set<(string, string)>, groupId: string, language: string)
    requires UniqueNaturalKeys(rows)
    ensures forall i, j :: 0 <= i < j < |Join(rows, memberships, groupId, language)| ==>
              Join(rows, memberships, groupId, language)[i].key != Join(rows, memberships, groupId, language)[j].key
  {
    if rows != [] {
      var rest := Join(rows[1..], memberships, groupId, language);
      assert UniqueNaturalKeys(rows[1..]) by {
        forall i, j | 0 <= i < j < |rows[1..]|
          ensures rows[1..][i].key != rows[1..][j].key || rows[1..][i].language != rows[1..][j].language
        {
          assert rows[1..][i] == rows[i + 1] && rows[1..][j] == rows[j + 1];
        }
      }
      JoinKeysDistinct(rows[1..], memberships, groupId, language);
      JoinSelects(rows[1..], memberships, groupId, language);
      if rows[0].language == language && (rows[0].key, groupId) in memberships {
        forall j | 0 <= j < |rest| ensures rows[0].key != rest[j].key {
          assert rest[j] in rows[1..];
          var k :| 0 <= k < |rows[1..]| && rows[1..][k] == rest[j];
          assert rows[k + 1] == rest[j];
        }
        var all := [rows[0]] + rest;
        forall i, j | 0 <= i < j < |all| ensures all[i].key != all[j].key {
          if i > 0 {
            assert all[i] == rest[i - 1] && all[j] == rest[j - 1];
          } else {
            assert all[j] == rest[j - 1];
          }
        }
      }
    }
  }

  /** Messages the repository wraps its failures with. */
  function QueryFailed(groupId: string, language: string): string
  {
    "Failed to query group texts. groupId=" + groupId + " language=" + language
  }

  function ScanFailed(groupId: string, language: string): string
  {
    "Failed to scan text. groupId=" + groupId + " language=" + language
  }

  /** The message a check of the iterator's error would wrap a dropped read with. */
  function IterationFailed(groupId: string, language: string): string
  {
    "Failed to read group texts. groupId=" + groupId + " language=" + language
  }

  class GroupRepo {
    const db: Db
    var fault: Fault
    /** Whether, and after how many rows, the connection drops while the join is read. */
    var interruption: Option<Interruption>

    constructor (db: Db)
      ensures this.db == db && fault == Healthy && interruption == None
    {
      this.db := db;
      fault := Healthy;
      interruption := None;
    }

    /** The connection drops before the iterator has delivered every row of the join. */
    predicate CutShort(groupId: string, language: string)
      reads this, db
    {
      interruption.Some? && interruption.value.after < |Join(db.translatedTexts, db.memberships, groupId, language)|
    }

    /** The rows the iterator delivers before it stops: all of the join, or those before the drop. */
    function Delivered(groupId: string, language: string): (r: seq<TranslatedText>)
      reads this, db
      ensures r <= Join(db.translatedTexts, db.memberships, groupId, language)
      ensures !CutShort(groupId, language) ==> r == Join(db.translatedTexts, db.memberships, groupId, language)
      ensures CutShort(groupId, language) ==> |r| == interruption.value.after
    {
      var rows := Join(db.translatedTexts, db.memberships, groupId, language);
      if CutShort(groupId, language) then rows[..interruption.value.after] else rows
    }

    /**
     * What `FindTexts` returns as written: the loop ends when the iterator
     * stops and never asks it for an error, so a dropped read returns the
     * rows delivered until then as if they were the whole answer.
     */
    function TextsAsWritten(groupId: string, language: string): (r: Result<seq<TranslatedText>, RepoError>)
      reads this, db
      ensures r.Success? ==> r.value <= Join(db.translatedTexts, db.memberships, groupId, language)
      ensures r.Success? && !CutShort(groupId, language) ==> r.value == Join(db.translatedTexts, db.memberships, groupId, language)
      ensures fault.Healthy? ==> r.Success?
      ensures fault.Healthy? && CutShort(groupId, language) ==>
                r == Success(Join(db.translatedTexts, db.memberships, groupId, language)[..interruption.value.after])
      ensures r.Failure? ==> !fault.Healthy? && r.error.Wrapped?
      ensures fault.Unreachable? ==> r == Failure(Wrapped(QueryFailed(groupId, language), fault.cause))
      ensures fault.BadRow? && Delivered(groupId, language) != [] ==>
                r == Failure(Wrapped(ScanFailed(groupId, language), fault.cause))
      ensures !fault.Unreachable? && !(fault.BadRow? && Delivered(groupId, language) != []) ==>
                r == Success(Delivered(groupId, language))
    {
      if fault.Unreachable? then
        Failure(Wrapped(QueryFailed(groupId, language), fault.cause))
      else
        var rows := Delivered(groupId, language);
        if fault.BadRow? && rows != [] then
          Failure(Wrapped(ScanFailed(groupId, language), fault.cause))
        else
          Success(rows)
    }

    /**
     * What `FindTexts` is evidently meant to return: the texts in `language`
     * whose key belongs to the group, or a wrapped failure and no partial
     * result, a dropped read included. No matching row is an empty list,
     * not an error, and whether a `text_group` row exists plays no part.
     */
    function Texts(groupId: string, language: string): (r: Result<seq<TranslatedText>, RepoError>)
      reads this, db
      ensures r.Success? ==> forall t :: t in r.value <==>
                t in db.translatedTexts && t.language == language && (t.key, groupId) in db.memberships
      ensures r.Success? ==> |r.value| <= |db.translatedTexts|
      ensures r.Failure? ==> (!fault.Healthy? || CutShort(groupId, language)) && r.error.Wrapped?
      ensures fault.Unreachable? ==> r == Failure(Wrapped(QueryFailed(groupId, language), fault.cause))
      ensures !fault.Unreachable? && (forall t :: t in db.translatedTexts ==> t.language != language || (t.key, groupId) !in db.memberships) ==>
                r == Success([])
      ensures fault.Healthy? && !CutShort(groupId, language) ==> r.Success?
      ensures fault.Healthy? && CutShort(groupId, language) ==>
                r == Failure(Wrapped(IterationFailed(groupId, language), interruption.value.cause))
      ensures fault.BadRow? && Delivered(groupId, language) != [] ==>
                r == Failure(Wrapped(ScanFailed(groupId, language), fault.cause))
    {
      if fault.Unreachable? then
        Failure(Wrapped(QueryFailed(groupId, language), fault.cause))
      else
        var rows := Delivered(groupId, language);
        JoinSelects(db.translatedTexts, db.memberships, groupId, language);
        var all := Join(db.translatedTexts, db.memberships, groupId, language);
        assert all != [] ==> all[0] in all;
        if fault.BadRow? && rows != [] then
          Failure(Wrapped(ScanFailed(groupId, language), fault.cause))
        else if CutShort(groupId, language) then
          Failure(Wrapped(IterationFailed(groupId, language), interruption.value.cause))
        else
          Success(rows)
    }

    /** `FindTexts` as written: runs the join and scans the rows the iterator delivers into a fresh list. */
    method FindTexts(groupId: string, language: string) returns (r: Result<seq<TranslatedText>, RepoError>)
      ensures r == TextsAsWritten(groupId, language)
    {
      if fault.Unreachable? {
        return Failure(Wrapped(QueryFailed(groupId, language), fault.cause));
      }
      var rows := Join(db.translatedTexts, db.memberships, groupId, language);
      var texts: seq<TranslatedText> := [];
      var i := 0;
      while i < |rows| && (interruption.None? || i < interruption.value.after)
        invariant 0 <= i <= |Delivered(groupId, language)|
        invariant texts == rows[..i]
        invariant fault.BadRow? ==> i == 0
      {
        if fault.BadRow? {
          return Failure(Wrapped(ScanFailed(groupId, language), fault.cause));
        }
        texts := texts + [rows[i]];
        i := i + 1;
      }
      assert texts == Delivered(groupId, language);
      return Success(texts);
    }

    /** `FindTexts` with the iterator's error checked once the loop ends. */
    method FindTextsChecked(groupId: string, language: string) returns (r: Result<seq<TranslatedText>, RepoError>)
      ensures r == Texts(groupId, language)
    {
      if fault.Unreachable? {
        return Failure(Wrapped(QueryFailed(groupId, language), fault.cause));
      }
      var rows := Join(db.translatedTexts, db.memberships, groupId, language);
      var texts: seq<TranslatedText> := [];
      var i := 0;
      while i < |rows| && (interruption.None? || i < interruption.value.after)
        invariant 0 <= i <= |Delivered(groupId, language)|
        invariant texts == rows[..i]
        invariant fault.BadRow? ==> i == 0
      {
        if fault.BadRow? {
          return Failure(Wrapped(ScanFailed(groupId, language), fault.cause));
        }
        texts := texts + [rows[i]];
        i := i + 1;
      }
      if interruption.Some? && interruption.value.after < |rows| {
        return Failure(Wrapped(IterationFailed(groupId, language), interruption.value.cause));
      }
      assert texts == rows;
      return Success(texts);
    }

    /**
     * Inserts the group id with creation time `now`. Fails, changing nothing,
     * when the database is unreachable or the id exists.
     */
    method Save(group: TextGroup, now: int) returns (err: Option<RepoError>)
      modifies db
      ensures fault.Unreachable? ==> err == Some(Wrapped("Failed to save group. id=" + group.id, fault.cause))
      ensures !fault.Unreachable? && group.id in old(db.textGroups) ==>
                err == Some(Wrapped("Failed to save group. id=" + group.id, UniqueViolation))
      ensures err.None? <==> !fault.Unreachable? && group.id !in old(db.textGroups)
      ensures db.textGroups == if err.None? then old(db.textGroups)[group.id := now] else old(db.textGroups)
      ensures old(db.Valid()) ==> db.Valid()
      ensures db.languages == old(db.languages) && db.translatedTexts == old(db.translatedTexts)
      ensures db.memberships == old(db.memberships) && db.textIdSeq == old(db.textIdSeq)
    {
      if fault.Unreachable? {
        return Some(Wrapped("Failed to save group. id=" + group.id, fault.cause));
      }
      if group.id in db.textGroups {
        return Some(Wrapped("Failed to save group. id=" + group.id, UniqueViolation));
      }
      db.textGroups := db.textGroups[group.id := now];
      return None;
    }

    /**
     * Records that `textKey` belongs to `groupId`. Fails, changing nothing,
     * when the database is unreachable or the pair is already recorded.
     */
    method AddTextToGroup(textKey: string, groupId: string) returns (err: Option<RepoError>)
      modifies db
      ensures fault.Unreachable? ==>
                err == Some(Wrapped("Failed to add text to group. textKey=" + textKey + " groupId=" + groupId, fault.cause))
      ensures !fault.Unreachable? && (textKey, groupId) in old(db.memberships) ==>
                err == Some(Wrapped("Failed to add text to group. textKey=" + textKey + " groupId=" + groupId, UniqueViolation))
      ensures err.None? <==> !fault.Unreachable? && (textKey, groupId) !in old(db.memberships)
      ensures db.memberships == if err.None? then old(db.memberships) + {(textKey, groupId)} else old(db.memberships)
      ensures old(db.Valid()) ==> db.Valid()
      ensures db.languages == old(db.languages) && db.translatedTexts == old(db.translatedTexts)
      ensures db.textGroups == old(db.textGroups) && db.textIdSeq == old(db.textIdSeq)
    {
      if fault.Unreachable? {
        return Some(Wrapped("Failed to add text to group. textKey=" + textKey + " groupId=" + groupId, fault.cause));
      }
      if (textKey, groupId) in db.memberships {
        return Some(Wrapped("Failed to add text to group. textKey=" + textKey + " groupId=" + groupId, UniqueViolation));
      }
      db.memberships := db.memberships + {(textKey, groupId)};
      return None;
    }
  }
}
