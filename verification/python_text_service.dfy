/**
 * The Python resolver of python/flask/app/service/text_service.py: the same
 * two lookups as the Go getter over its own store, with different group
 * semantics (a missing group is 404, an existing group without texts in the
 * language is an empty answer).
 */
module TextService {
  import opened Wrappers

  /** A row of the Python `translated_text` table. */
  datatype Text = Text(key: string, language: string, value: string)

  /**
   * What the Python repositories read: the supported language ids, the
   * texts in table order and, per group id, the keys of its member texts.
   */
  datatype Store = Store(languages: set<string>, texts: seq<Text>, groups: map<string, seq<string>>)

  /** The service's two error classes; `NotFoundError()` carries no message. */
  datatype Error = BadRequestError(message: string) | NotFoundError(detail: Option<string>)

  /** `language_repo.find_language` followed by the guard: the language, or 400. */
  function AssertLanguageSupport(store: Store, languageId: string): (r: Result<string, Error>)
    ensures r.Success? <==> languageId in store.languages
    ensures r.Success? ==> r.value == languageId
    ensures r.Failure? ==> r.error == BadRequestError("Unsupported language: " + languageId)
  {
    if languageId in store.languages then Success(languageId)
    else Failure(BadRequestError("Unsupported language: " + languageId))
  }

  /** `text_repo.find_group` followed by the guard: the member keys of the group, or 404 naming it. */
  function AssertGroup(store: Store, groupId: string): (r: Result<seq<string>, Error>)
    ensures r.Success? <==> groupId in store.groups
    ensures r.Success? ==> r.value == store.groups[groupId]
    ensures r.Failure? ==> r.error == NotFoundError(Some("No such group: " + groupId))
  {
    if groupId in store.groups then Success(store.groups[groupId])
    else Failure(NotFoundError(Some("No such group: " + groupId)))
  }

  /** Whether some text has this key and language. */
  predicate HasText(texts: seq<Text>, key: string, language: string)
  {
    exists i :: 0 <= i < |texts| && texts[i].key == key && texts[i].language == language
  }

  /** `text_repo.find_by_key`: the first text with the key in the language, if any. */
  function FindByKey(texts: seq<Text>, key: string, language: string): (r: Option<Text>)
    ensures r.Some? ==> r.value in texts && r.value.key == key && r.value.language == language
    ensures r.None? <==> !HasText(texts, key, language)
  {
    if texts == [] then None
    else if texts[0].key == key && texts[0].language == language then Some(texts[0])
    else
      assert HasText(texts, key, language) ==> HasText(texts[1..], key, language) by {
        if HasText(texts, key, language) {
          var i :| 0 <= i < |texts| && texts[i].key == key && texts[i].language == language;
          assert texts[1..][i - 1] == texts[i];
        }
      }
      assert HasText(texts[1..], key, language) ==> HasText(texts, key, language) by {
        if HasText(texts[1..], key, language) {
          var i :| 0 <= i < |texts[1..]| && texts[1..][i].key == key && texts[1..][i].language == language;
          assert texts[i + 1] == texts[1..][i];
        }
      }
      FindByKey(texts[1..], key, language)
  }

  /** `text_repo.find_by_keys`: the texts in the language whose key is one of `keys`, in table order. */
  function FindByKeys(texts: seq<Text>, keys: seq<string>, language: string): (r: seq<Text>)
    ensures forall t :: t in r <==> t in texts && t.key in keys && t.language == language
  {
    if texts == [] then []
    else
      var rest := FindByKeys(texts[1..], keys, language);
      assert forall t :: t in texts <==> t == texts[0] || t in texts[1..];
      if texts[0].key in keys && texts[0].language == language then [texts[0]] + rest else rest
  }

  /** The dict comprehension `{text.key: text.value for text in texts}`: later texts overwrite earlier ones. */
  function DictOf(texts: seq<Text>): map<string, string>
  {
    if texts == [] then map[]
    else DictOf(texts[..|texts| - 1])[texts[|texts| - 1].key := texts[|texts| - 1].value]
  }

  /** The dict's keys are exactly the texts' keys. */
  lemma {:induction false} DictOfKeys(texts: seq<Text>)
    ensures DictOf(texts).Keys == set t | t in texts :: t.key
  {
    if texts != [] {
      var init := texts[..|texts| - 1];
      DictOfKeys(init);
      assert forall t :: t in texts <==> t in init || t == texts[|texts| - 1];
    }
  }

  /** A key's entry is the value of the last text with that key. */
  lemma {:induction false} DictOfLastWins(texts: seq<Text>, i: nat)
    requires i < |texts|
    requires forall j :: i < j < |texts| ==> texts[j].key != texts[i].key
    ensures texts[i].key in DictOf(texts) && DictOf(texts)[texts[i].key] == texts[i].value
  {
    if i < |texts| - 1 {
      var init := texts[..|texts| - 1];
      assert forall j :: i < j < |init| ==> init[j] == texts[j];
      DictOfLastWins(init, i);
      assert init[i] == texts[i];
    }
  }

  /** Every entry of the dict is the value of some text with that key. */
  lemma {:induction false} DictOfValues(texts: seq<Text>, k: string)
    requires k in DictOf(texts)
    ensures exists i :: 0 <= i < |texts| && texts[i].key == k && texts[i].value == DictOf(texts)[k]
  {
    var n := |texts| - 1;
    if texts[n].key != k {
      var init := texts[..n];
      DictOfValues(init, k);
      var i :| 0 <= i < |init| && init[i].key == k && init[i].value == DictOf(init)[k];
      assert texts[i] == init[i];
    }
  }

  /**
   * `get_text_by_key`: 400 for an unsupported language, 404 without a message
   * when the language has no text for the key, otherwise the single entry
   * `{key: value}` of the text found.
   */
  function GetTextByKey(store: Store, key: string, language: string): (r: Result<map<string, string>, Error>)
    ensures language !in store.languages ==> r == Failure(BadRequestError("Unsupported language: " + language))
    ensures r.Success? <==> language in store.languages && HasText(store.texts, key, language)
    ensures r.Success? ==> r.value.Keys == {key}
    ensures r.Success? ==> exists t :: t in store.texts && t.key == key && t.language == language && t.value == r.value[key]
    ensures r == Failure(NotFoundError(None)) <==> language in store.languages && !HasText(store.texts, key, language)
  {
    match AssertLanguageSupport(store, language)
    case Failure(err) => Failure(err)
    case Success(_) =>
      match FindByKey(store.texts, key, language)
      case None => Failure(NotFoundError(None))
      case Some(text) => Success(map[text.key := text.value])
  }

  /**
   * `get_text_by_group`: 400 for an unsupported language before the group is
   * looked up, 404 naming the group when it does not exist, otherwise the
   * dict from every member key with a text in the language to that text,
   * which is empty when no member has one.
   */
  function GetTextByGroup(store: Store, groupId: string, language: string): (r: Result<map<string, string>, Error>)
    ensures language !in store.languages ==> r == Failure(BadRequestError("Unsupported language: " + language))
    ensures language in store.languages && groupId !in store.groups ==>
              r == Failure(NotFoundError(Some("No such group: " + groupId)))
    ensures r.Success? <==> language in store.languages && groupId in store.groups
    ensures r.Success? ==> forall k :: k in r.value <==> k in store.groups[groupId] && HasText(store.texts, k, language)
    ensures r.Success? ==> forall k :: k in r.value ==>
              exists t :: t in store.texts && t.key == k && t.language == language && t.value == r.value[k]
  {
    match AssertLanguageSupport(store, language)
    case Failure(err) => Failure(err)
    case Success(_) =>
      match AssertGroup(store, groupId)
      case Failure(err) => Failure(err)
      case Success(keys) =>
        var texts := FindByKeys(store.texts, keys, language);
        var dict := DictOf(texts);
        DictOfKeys(texts);
        assert forall k :: k in dict <==> k in keys && HasText(store.texts, k, language) by {
          forall k | k in keys && HasText(store.texts, k, language) ensures k in dict {
            var i :| 0 <= i < |store.texts| && store.texts[i].key == k && store.texts[i].language == language;
            assert store.texts[i] in texts;
          }
          forall k | k in dict ensures k in keys && HasText(store.texts, k, language) {
            var t :| t in texts && t.key == k;
            var i :| 0 <= i < |store.texts| && store.texts[i] == t;
          }
        }
        assert forall k :: k in dict ==>
                 exists t :: t in store.texts && t.key == k && t.language == language && t.value == dict[k] by {
          forall k | k in dict
            ensures exists t :: t in store.texts && t.key == k && t.language == language && t.value == dict[k]
          {
            DictOfValues(texts, k);
            var i :| 0 <= i < |texts| && texts[i].key == k && texts[i].value == dict[k];
            assert texts[i] in texts;
          }
        }
        Success(dict)
  }

  /** An existing group none of whose members has a text in the language answers with an empty dict, not 404. */
  lemma EmptyGroupIsEmptyAnswer(store: Store, groupId: string, language: string)
    requires language in store.languages && groupId in store.groups
    requires forall k :: k in store.groups[groupId] ==> !HasText(store.texts, k, language)
    ensures GetTextByGroup(store, groupId, language) == Success(map[])
  {
    var r := GetTextByGroup(store, groupId, language);
    assert r.value.Keys == {};
  }

  /** With one text per (key, language), a key lookup answers with exactly the stored value. */
  lemma GetTextByKeyReturnsStoredValue(store: Store, i: nat)
    requires i < |store.texts| && store.texts[i].language in store.languages
    requires forall j :: 0 <= j < |store.texts| && j != i ==>
               store.texts[j].key != store.texts[i].key || store.texts[j].language != store.texts[i].language
    ensures GetTextByKey(store, store.texts[i].key, store.texts[i].language) ==
              Success(map[store.texts[i].key := store.texts[i].value])
  {
    var t := store.texts[i];
    var r := GetTextByKey(store, t.key, t.language);
    assert HasText(store.texts, t.key, t.language);
    var u :| u in store.texts && u.key == t.key && u.language == t.language && u.value == r.value[t.key];
    var j :| 0 <= j < |store.texts| && store.texts[j] == u;
  }
}
