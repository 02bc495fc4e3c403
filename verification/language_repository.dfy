/** go/pkg/repository/language_repository.go: the registry of supported languages. */
module LanguageRepository {
  import opened Wrappers
  import opened Models
  import opened Repository

  class LanguageRepo {
    const db: Db
    var fault: Fault

    constructor (db: Db)
      ensures this.db == db && fault == Healthy
    {
      this.db := db;
      fault := Healthy;
    }

    /**
     * Looks a language up by its exact id. A missing row is `ErrNotFound`;
     * a failing query or scan is a wrapped error, never `ErrNotFound`.
     */
    function Find(language: string): (r: Result<Language, RepoError>)
      reads this, db
      ensures r.Success? <==> fault.Healthy? && language in db.languages
      ensures r.Success? ==> r.value == Language(language, db.languages[language])
      ensures r == Failure(ErrNotFound) <==> !fault.Unreachable? && language !in db.languages
      ensures r.Failure? && r.error != ErrNotFound ==>
                !fault.Healthy? && r.error == Wrapped("Failed to query language. language=" + language, fault.cause)
    {
      if fault.Unreachable? then
        Failure(Wrapped("Failed to query language. language=" + language, fault.cause))
      else if language !in db.languages then
        Failure(ErrNotFound)
      else if fault.BadRow? then
        Failure(Wrapped("Failed to query language. language=" + language, fault.cause))
      else
        Success(Language(language, db.languages[language]))
    }

    /**
     * Inserts `language` with creation time `now`. Fails, changing nothing,
     * when the database is unreachable or the id is already registered.
     */
    method Save(language: string, now: int) returns (err: Option<RepoError>)
      modifies db
      ensures fault.Unreachable? ==> err == Some(Wrapped("Failed to insert language. language=" + language, fault.cause))
      ensures !fault.Unreachable? && language in old(db.languages) ==>
                err == Some(Wrapped("Failed to insert language. language=" + language, UniqueViolation))
      ensures err.None? <==> !fault.Unreachable? && language !in old(db.languages)
      ensures db.languages == if err.None? then old(db.languages)[language := now] else old(db.languages)
      ensures old(db.Valid()) ==> db.Valid()
      ensures db.translatedTexts == old(db.translatedTexts) && db.textGroups == old(db.textGroups)
      ensures db.memberships == old(db.memberships) && db.textIdSeq == old(db.textIdSeq)
      ensures err.None? && fault.Healthy? ==> Find(language) == Success(Language(language, now))
    {
      if fault.Unreachable? {
        return Some(Wrapped("Failed to insert language. language=" + language, fault.cause));
      }
      if language in db.languages {
        return Some(Wrapped("Failed to insert language. language=" + language, UniqueViolation));
      }
      db.languages := db.languages[language := now];
      return None;
    }
  }
}
