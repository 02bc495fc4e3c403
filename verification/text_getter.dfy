/**
 * go/pkg/service/text_getter.go: resolves one key, or every text of a group,
 * in the language the request context carries, and classifies every failure
 * as 400, 404 or 500.
 */
module Service {
  import opened Wrappers
  import opened Models
  import opened Repository
  import opened RequestContext
  import opened LanguageRepository
  import opened TextRepository
  import opened GroupRepository
  import HttpUtil

  /**
   * The map `mapTextsToMap` builds: each text's key to its value, a later
   * text overwriting an earlier one with the same key.
   */
  function TextsMap(texts: seq<TranslatedText>): Texts
  {
    if texts == [] then map[]
    else TextsMap(texts[..|texts| - 1])[texts[|texts| - 1].key := texts[|texts| - 1].value]
  }

  /** The keys of the map are exactly the keys of the texts. */
  lemma {:induction false} TextsMapKeys(texts: seq<TranslatedText>)
    ensures TextsMap(texts).Keys == set t | t in texts :: t.key
  {
    if texts != [] {
      var init, last := texts[..|texts| - 1], texts[|texts| - 1];
      assert texts == init + [last];
      TextsMapKeys(init);
    }
  }

  /** Every entry of the map is the value of some text with that key. */
  lemma {:induction false} TextsMapValues(texts: seq<TranslatedText>, k: string)
    requires k in TextsMap(texts)
    ensures exists i :: 0 <= i < |texts| && texts[i].key == k && texts[i].value == TextsMap(texts)[k]
  {
    var init, last := texts[..|texts| - 1], texts[|texts| - 1];
    if k != last.key {
      TextsMapValues(init, k);
      var i :| 0 <= i < |init| && init[i].key == k && init[i].value == TextsMap(init)[k];
      assert texts[i] == init[i];
    } else {
      assert texts[|texts| - 1] == last;
    }
  }

  /** The map has at most as many entries as there are texts. */
  lemma {:induction false} TextsMapSize(texts: seq<TranslatedText>)
    ensures |TextsMap(texts)| <= |texts|
  {
    if texts != [] {
      var init, last := texts[..|texts| - 1], texts[|texts| - 1];
      TextsMapSize(init);
      var m := TextsMap(init);
      assert TextsMap(texts).Keys == m.Keys + {last.key};
      assert |m.Keys + {last.key}| <= |m.Keys| + 1;
    }
  }

  /** The entry for a key is the value of the last text with that key. */
  lemma {:induction false} TextsMapLastWins(texts: seq<TranslatedText>, i: nat)
    requires i < |texts|
    requires forall j :: i < j < |texts| ==> texts[j].key != texts[i].key
    ensures texts[i].key in TextsMap(texts) && TextsMap(texts)[texts[i].key] == texts[i].value
  {
    if i < |texts| - 1 {
      var init := texts[..|texts| - 1];
      assert init[i] == texts[i];
      TextsMapLastWins(init, i);
    }
  }

  /** A single text gives a single-entry map. */
  lemma TextsMapSingle(t: TranslatedText)
    ensures TextsMap([t]) == map[t.key := t.value]
  {
    assert [t][..0] == [];
  }

  /** When no two texts share a key, the map does not depend on the order of the texts. */
  lemma TextsMapOrderFree(s: seq<TranslatedText>, p: seq<TranslatedText>)
    requires multiset(s) == multiset(p)
    requires forall i, j :: 0 <= i < j < |s| ==> s[i].key != s[j].key
    ensures TextsMap(s) == TextsMap(p)
  {
    TextsMapKeys(s);
    TextsMapKeys(p);
    assert forall t :: t in s <==> t in p by {
      forall t ensures t in s <==> t in p {
        assert t in s <==> t in multiset(s);
        assert t in p <==> t in multiset(p);
      }
    }
    assert TextsMap(s).Keys == TextsMap(p).Keys;
    forall k | k in TextsMap(s) ensures TextsMap(s)[k] == TextsMap(p)[k] {
      TextsMapValues(s, k);
      TextsMapValues(p, k);
      var i :| 0 <= i < |s| && s[i].key == k && s[i].value == TextsMap(s)[k];
      var j :| 0 <= j < |p| && p[j].key == k && p[j].value == TextsMap(p)[k];
      assert p[j] in p;
      var i' :| 0 <= i' < |s| && s[i'] == p[j];
      assert !(i < i' || i' < i);
    }
  }

  /** `mapTextsToMap`: fills a fresh map one text at a time. */
  method MapTextsToMap(texts: seq<TranslatedText>) returns (textMap: Texts)
    ensures textMap == TextsMap(texts)
    ensures textMap.Keys == set t | t in texts :: t.key
    ensures |textMap| <= |texts|
  {
    textMap := map[];
    for i := 0 to |texts|
      invariant textMap == TextsMap(texts[..i])
    {
      assert texts[..i + 1][..i] == texts[..i];
      textMap := textMap[texts[i].key := texts[i].value];
    }
    assert texts[..|texts|] == texts;
    TextsMapKeys(texts);
    TextsMapSize(texts);
  }

  /** Some text in `language` belongs to the group. */
  predicate GroupHasTexts(rows: seq<TranslatedText>, memberships: set<(string, string)>, groupId: string, language: string)
  {
    exists i :: 0 <= i < |rows| && rows[i].language == language && (rows[i].key, groupId) in memberships
  }

  /** The `getter` of the source: the three repositories it consults. */
  class Getter {
    const languageRepo: LanguageRepo
    const textRepo: TextRepo
    const groupRepo: GroupRepo

    constructor (languageRepo: LanguageRepo, textRepo: TextRepo, groupRepo: GroupRepo)
      ensures this.languageRepo == languageRepo && this.textRepo == textRepo && this.groupRepo == groupRepo
    {
      this.languageRepo := languageRepo;
      this.textRepo := textRepo;
      this.groupRepo := groupRepo;
    }

    /** Everything a lookup may read: the repositories and their databases. */
    ghost function Footprint(): set<object>
    {
      {languageRepo, languageRepo.db, textRepo, textRepo.db, groupRepo, groupRepo.db}
    }

    /**
     * `assertLanguageExists`: nothing when the context's language is
     * registered, 400 "Unsupported language: <lang>" when the registry says it
     * is not, 500 for any other registry failure.
     */
    function AssertLanguageExists(ctx: Context): (r: Option<HttpUtil.Error>)
      reads languageRepo, languageRepo.db
      ensures r.None? <==> languageRepo.fault.Healthy? && ctx.language in languageRepo.db.languages
      ensures r == Some(HttpUtil.BadRequest("Unsupported language: " + ctx.language)) <==>
                !languageRepo.fault.Unreachable? && ctx.language !in languageRepo.db.languages
      ensures r.Some? ==> r.value == HttpUtil.ErrInternalServerError || r.value.BadRequest?
      ensures r.Some? && r.value.BadRequest? ==> r.value.message == "Unsupported language: " + ctx.language
    {
      match languageRepo.Find(ctx.language)
      case Failure(ErrNotFound) => Some(HttpUtil.BadRequest("Unsupported language: " + ctx.language))
      case Failure(_) => Some(HttpUtil.ErrInternalServerError)
      case Success(_) => None
    }

    /**
     * `Get`: the single-entry map from `key` to its text in the context's
     * language; 404 when there is none, 500 when the store fails.
     */
    function Get(ctx: Context, key: string): (r: Result<Texts, HttpUtil.Error>)
      reads Footprint()
      ensures AssertLanguageExists(ctx).Some? ==> r == Failure(AssertLanguageExists(ctx).value)
      ensures r.Success? <==>
                AssertLanguageExists(ctx).None? && textRepo.fault.Healthy? && HasText(textRepo.db.translatedTexts, key, ctx.language)
      ensures r.Success? ==> r.value.Keys == {key}
      ensures r.Success? ==> exists t :: t in textRepo.db.translatedTexts && t.key == key && t.language == ctx.language && t.value == r.value[key]
      ensures r == Failure(HttpUtil.ErrNotFound) <==>
                AssertLanguageExists(ctx).None? && !textRepo.fault.Unreachable? && !HasText(textRepo.db.translatedTexts, key, ctx.language)
      ensures AssertLanguageExists(ctx).None? && r.Failure? ==>
                r.error == HttpUtil.ErrNotFound || r.error == HttpUtil.ErrInternalServerError
    {
      match AssertLanguageExists(ctx)
      case Some(err) => Failure(err)
      case None =>
        match textRepo.Find(key, ctx.language)
        case Failure(ErrNotFound) => Failure(HttpUtil.ErrNotFound)
        case Failure(_) => Failure(HttpUtil.ErrInternalServerError)
        case Success(text) =>
          TextsMapSingle(text);
          Success(TextsMap([text]))
    }

    /**
     * `GetGroup`: the map from every member key of the group that has a text
     * in the context's language to that text; 404 when no member has one,
     * whether or not the group exists; 500 when the store fails, or when the
     * connection drops before every row of the group was read.
     */
    function GetGroup(ctx: Context, groupId: string): (r: Result<Texts, HttpUtil.Error>)
      reads Footprint()
      ensures AssertLanguageExists(ctx).Some? ==> r == Failure(AssertLanguageExists(ctx).value)
      ensures r.Success? <==>
                AssertLanguageExists(ctx).None? && groupRepo.fault.Healthy? && !groupRepo.CutShort(groupId, ctx.language) &&
                GroupHasTexts(groupRepo.db.translatedTexts, groupRepo.db.memberships, groupId, ctx.language)
      ensures r.Success? ==> forall k :: k in r.value <==>
                (k, groupId) in groupRepo.db.memberships && HasText(groupRepo.db.translatedTexts, k, ctx.language)
      ensures r.Success? ==> forall k :: k in r.value ==>
                exists t :: t in groupRepo.db.translatedTexts && t.key == k && t.language == ctx.language && t.value == r.value[k]
      ensures r == Failure(HttpUtil.ErrNotFound) <==>
                AssertLanguageExists(ctx).None? && !groupRepo.fault.Unreachable? &&
                !GroupHasTexts(groupRepo.db.translatedTexts, groupRepo.db.memberships, groupId, ctx.language)
      ensures AssertLanguageExists(ctx).None? && groupRepo.fault.Healthy? && groupRepo.CutShort(groupId, ctx.language) ==>
                r == Failure(HttpUtil.ErrInternalServerError)
      ensures AssertLanguageExists(ctx).None? && r.Failure? ==>
                r.error == HttpUtil.ErrNotFound || r.error == HttpUtil.ErrInternalServerError
    {
      match AssertLanguageExists(ctx)
      case Some(err) => Failure(err)
      case None =>
        match groupRepo.Texts(groupId, ctx.language)
        case Failure(err) => GroupAnswer(Failure(err))
        case Success(texts) =>
          GroupTextsCharacterized(groupRepo.db.translatedTexts, groupRepo.db.memberships, groupId, ctx.language, texts);
          TextsMapKeys(texts);
          assert forall k :: k in TextsMap(texts) ==>
                   exists t :: t in groupRepo.db.translatedTexts && t.key == k && t.language == ctx.language && t.value == TextsMap(texts)[k] by {
            forall k | k in TextsMap(texts)
              ensures exists t :: t in groupRepo.db.translatedTexts && t.key == k && t.language == ctx.language && t.value == TextsMap(texts)[k]
            {
              TextsMapValues(texts, k);
              var i :| 0 <= i < |texts| && texts[i].key == k && texts[i].value == TextsMap(texts)[k];
              assert texts[i] in texts;
            }
          }
          GroupAnswer(Success(texts))
    }
  }

  /**
   * Lines 66-77 of `GetGroup`: a failed lookup is 500, no rows is 404, and
   * otherwise the rows are folded into a map.
   */
  function GroupAnswer(texts: Result<seq<TranslatedText>, RepoError>): (r: Result<Texts, HttpUtil.Error>)
    ensures texts.Failure? ==> r == Failure(HttpUtil.ErrInternalServerError)
    ensures texts == Success([]) ==> r == Failure(HttpUtil.ErrNotFound)
    ensures texts.Success? && texts.value != [] ==> r == Success(TextsMap(texts.value))
    ensures texts.Success? && texts.value != [] ==> r.Success? && r.value.Keys == set t | t in texts.value :: t.key
  {
    match texts
    case Failure(_) => Failure(HttpUtil.ErrInternalServerError)
    case Success(rows) =>
      if |rows| == 0 then Failure(HttpUtil.ErrNotFound)
      else
        TextsMapKeys(rows);
        Success(TextsMap(rows))
  }

  /** Bridges the join's row membership to the key-level predicates the getter is stated with. */
  lemma GroupTextsCharacterized(rows: seq<TranslatedText>, memberships: set<(string, string)>, groupId: string, language: string, texts: seq<TranslatedText>)
    requires forall t :: t in texts <==> t in rows && t.language == language && (t.key, groupId) in memberships
    ensures |texts| == 0 <==> !GroupHasTexts(rows, memberships, groupId, language)
    ensures forall k :: k in (set t | t in texts :: t.key) <==> (k, groupId) in memberships && HasText(rows, k, language)
  {
    if GroupHasTexts(rows, memberships, groupId, language) {
      var i :| 0 <= i < |rows| && rows[i].language == language && (rows[i].key, groupId) in memberships;
      assert rows[i] in texts;
    }
    if |texts| != 0 {
      assert texts[0] in texts;
      var i :| 0 <= i < |rows| && rows[i] == texts[0];
    }
    forall k | (k, groupId) in memberships && HasText(rows, k, language)
      ensures k in (set t | t in texts :: t.key)
    {
      var i :| 0 <= i < |rows| && rows[i].key == k && rows[i].language == language;
      assert rows[i] in texts;
    }
    forall k | k in (set t | t in texts :: t.key)
      ensures (k, groupId) in memberships && HasText(rows, k, language)
    {
      var t :| t in texts && t.key == k;
      var i :| 0 <= i < |rows| && rows[i] == t;
    }
  }
}

/** Properties of the getter that relate its results to what the database stores. */
module ServiceProperties {
  import opened Wrappers
  import opened Models
  import opened Repository
  import opened RequestContext
  import opened TextRepository
  import opened GroupRepository
  import opened Service
  import HttpUtil

  /** With unique (key, language) pairs, `Get` answers with exactly the value stored for the pair. */
  lemma GetReturnsStoredValue(g: Getter, ctx: Context, i: nat)
    requires g.textRepo.db.Valid()
    requires i < |g.textRepo.db.translatedTexts|
    requires g.textRepo.db.translatedTexts[i].language == ctx.language
    requires g.AssertLanguageExists(ctx).None? && g.textRepo.fault.Healthy?
    ensures g.Get(ctx, g.textRepo.db.translatedTexts[i].key) ==
              Success(map[g.textRepo.db.translatedTexts[i].key := g.textRepo.db.translatedTexts[i].value])
  {
    var rows := g.textRepo.db.translatedTexts;
    FirstMatchIsTheRow(rows, i);
    TextsMapSingle(rows[i]);
  }

  /** With unique (key, language) pairs, every entry of a group answer is the value stored for that key and language. */
  lemma GetGroupReturnsStoredValues(g: Getter, ctx: Context, groupId: string, i: nat)
    requires g.groupRepo.db.Valid()
    requires i < |g.groupRepo.db.translatedTexts|
    requires g.groupRepo.db.translatedTexts[i].language == ctx.language
    requires (g.groupRepo.db.translatedTexts[i].key, groupId) in g.groupRepo.db.memberships
    requires g.AssertLanguageExists(ctx).None? && g.groupRepo.fault.Healthy? && !g.groupRepo.CutShort(groupId, ctx.language)
    ensures g.GetGroup(ctx, groupId).Success?
    ensures g.GetGroup(ctx, groupId).value[g.groupRepo.db.translatedTexts[i].key] == g.groupRepo.db.translatedTexts[i].value
  {
    var rows := g.groupRepo.db.translatedTexts;
    var row := rows[i];
    assert GroupHasTexts(rows, g.groupRepo.db.memberships, groupId, ctx.language);
    var r := g.GetGroup(ctx, groupId);
    assert HasText(rows, row.key, ctx.language);
    var t :| t in rows && t.key == row.key && t.language == ctx.language && t.value == r.value[row.key];
    var j :| 0 <= j < |rows| && rows[j] == t;
    assert !(i < j || j < i);
  }

  /**
   * When the language is supported and the store is healthy, a group answer
   * is the fold of the join rows, in table order, into a map.
   */
  lemma GetGroupFoldsTheJoin(g: Getter, ctx: Context, groupId: string)
    requires g.AssertLanguageExists(ctx).None? && g.groupRepo.fault.Healthy? && !g.groupRepo.CutShort(groupId, ctx.language)
    requires Join(g.groupRepo.db.translatedTexts, g.groupRepo.db.memberships, groupId, ctx.language) != []
    ensures g.GetGroup(ctx, groupId) ==
              Success(TextsMap(Join(g.groupRepo.db.translatedTexts, g.groupRepo.db.memberships, groupId, ctx.language)))
  {
  }

  /**
   * With unique (key, language) pairs, the order in which the database
   * returns the rows of the join does not matter: any permutation of them
   * yields the same answer.
   */
  lemma GetGroupOrderFree(g: Getter, ctx: Context, groupId: string, p: seq<TranslatedText>)
    requires g.groupRepo.db.Valid()
    requires g.AssertLanguageExists(ctx).None? && g.groupRepo.fault.Healthy? && !g.groupRepo.CutShort(groupId, ctx.language)
    requires multiset(p) == multiset(Join(g.groupRepo.db.translatedTexts, g.groupRepo.db.memberships, groupId, ctx.language))
    ensures g.GetGroup(ctx, groupId) == GroupAnswer(Success(p))
  {
    var rows := Join(g.groupRepo.db.translatedTexts, g.groupRepo.db.memberships, groupId, ctx.language);
    assert |p| == |multiset(p)| == |rows|;
    if rows != [] {
      GetGroupFoldsTheJoin(g, ctx, groupId);
      JoinKeysDistinct(g.groupRepo.db.translatedTexts, g.groupRepo.db.memberships, groupId, ctx.language);
      TextsMapOrderFree(rows, p);
    }
  }

  /**
   * `FindTexts` as written, when the connection drops after `n` of the join's
   * rows: the lookup reports success with only the first `n` rows, so the
   * answer built from it is 404 although the group has texts (n = 0), or a
   * 200 that silently lacks the member found in row `n` (n > 0).
   */
  lemma InterruptedReadAsWritten(g: Getter, ctx: Context, groupId: string)
    requires g.groupRepo.db.Valid()
    requires g.groupRepo.fault.Healthy? && g.groupRepo.CutShort(groupId, ctx.language)
    ensures var rows := Join(g.groupRepo.db.translatedTexts, g.groupRepo.db.memberships, groupId, ctx.language);
            var n := g.groupRepo.interruption.value.after;
            && g.groupRepo.TextsAsWritten(groupId, ctx.language) == Success(rows[..n])
            && (rows[n].key, groupId) in g.groupRepo.db.memberships
            && HasText(g.groupRepo.db.translatedTexts, rows[n].key, ctx.language)
            && (n == 0 ==> GroupAnswer(g.groupRepo.TextsAsWritten(groupId, ctx.language)) == Failure(HttpUtil.ErrNotFound))
            && (n > 0 ==> GroupAnswer(g.groupRepo.TextsAsWritten(groupId, ctx.language)).Success? &&
                          rows[n].key !in GroupAnswer(g.groupRepo.TextsAsWritten(groupId, ctx.language)).value)
  {
    var table := g.groupRepo.db.translatedTexts;
    var rows := Join(table, g.groupRepo.db.memberships, groupId, ctx.language);
    var n := g.groupRepo.interruption.value.after;
    JoinSelects(table, g.groupRepo.db.memberships, groupId, ctx.language);
    assert rows[n] in rows;
    var i :| 0 <= i < |table| && table[i] == rows[n];
    if n > 0 {
      JoinKeysDistinct(table, g.groupRepo.db.memberships, groupId, ctx.language);
      TextsMapKeys(rows[..n]);
      assert rows[n].key !in set t | t in rows[..n] :: t.key by {
        forall t | t in rows[..n] ensures t.key != rows[n].key {
          var j :| 0 <= j < n && rows[..n][j] == t;
          assert rows[j] == t;
        }
      }
    }
  }

  /**
   * A rejected language decides both answers on its own: two getters whose
   * registries agree give the same answers whatever their text and group
   * stores hold or however those fail.
   */
  lemma LanguageRejectedFirst(g1: Getter, g2: Getter, ctx: Context, key: string, groupId: string)
    requires g1.languageRepo.fault == g2.languageRepo.fault
    requires g1.languageRepo.db.languages == g2.languageRepo.db.languages
    requires g1.AssertLanguageExists(ctx).Some?
    ensures g1.Get(ctx, key) == g2.Get(ctx, key)
    ensures g1.GetGroup(ctx, groupId) == g2.GetGroup(ctx, groupId)
  {
  }
}
