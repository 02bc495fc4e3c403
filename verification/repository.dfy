/**
 * What the three repositories of go/pkg/repository share: the database they
 * query, the way it can fail, and the errors they report.
 *
 * The database is four tables held in memory: `language(id, created_at)`,
 * `translated_text(id, key, language, value, created_at, updated_at)`,
 * `text_group(id, created_at)` and `text_group_membership(text_key,
 * group_id)`. The model assumes that `language.id`, `text_group.id`,
 * (key, language) and (text_key, group_id) are unique, so that an insert
 * repeating one of them is rejected, and that `translated_text.id` is drawn
 * from a sequence that every insert reaching the database advances, whether
 * or not the row is then accepted.
 */
module Repository {
  import opened Models

  /** `ErrNotFound` is the shared sentinel; every other failure is wrapped with context. */
  datatype RepoError = ErrNotFound | Wrapped(message: string, cause: string)

  /**
   * The state of a repository's connection, so that storage failures can be
   * injected: `Unreachable` makes every statement fail, `BadRow` lets queries
   * run but makes scanning a returned row fail.
   */
  datatype Fault = Healthy | Unreachable(cause: string) | BadRow(cause: string)

  /**
   * The connection drops while a multi-row result is being read: the rows
   * iterator delivers `after` rows and then stops, with `cause` as its error.
   */
  datatype Interruption = Interruption(after: nat, cause: string)

  /**
   * The cause reported when an insert collides with an existing primary or
   * unique key. The wording is SQLite's, but it stands for whatever the
   * configured driver reports; no contract depends on its text.
   */
  const UniqueViolation := "UNIQUE constraint failed"

  /** No two rows of `translated_text` share a (key, language) pair. */
  ghost predicate UniqueNaturalKeys(rows: seq<TranslatedText>)
  {
    forall i, j :: 0 <= i < j < |rows| ==> rows[i].key != rows[j].key || rows[i].language != rows[j].language
  }

  /** Some row of `translated_text` has exactly this key and language. */
  predicate HasText(rows: seq<TranslatedText>, key: string, language: string)
  {
    exists i :: 0 <= i < |rows| && rows[i].key == key && rows[i].language == language
  }

  class Db {
    /** `language`: id to created_at. */
    var languages: map<string, int>
    /** `translated_text`, in insertion order. */
    var translatedTexts: seq<TranslatedText>
    /** The last value drawn from the sequence behind `translated_text.id`. */
    var textIdSeq: int
    /** `text_group`: id to created_at. */
    var textGroups: map<string, int>
    /** `text_group_membership`: (text_key, group_id) pairs. */
    var memberships: set<(string, string)>

    ghost predicate Valid()
      reads this
    {
      UniqueNaturalKeys(translatedTexts)
    }

    constructor ()
      ensures Valid()
      ensures languages == map[] && translatedTexts == [] && textGroups == map[] && memberships == {}
      ensures textIdSeq == 0
    {
      textIdSeq := 0;
      languages := map[];
      translatedTexts := [];
      textGroups := map[];
      memberships := {};
    }
  }
}
