/**
 * The scenarios of go/cmd/controller_test.go: the fixture database its
 * `createTestEnv` builds, and what each handler answers against it.
 */
module ControllerTests {
  import opened Wrappers
  import opened Models
  import opened Repository
  import opened LanguageRepository
  import opened TextRepository
  import opened GroupRepository
  import opened RequestContext
  import opened Service
  import opened ServiceProperties
  import opened Controller
  import HttpUtil

  /** The seven `translated_text` rows of the fixture, in insertion order. */
  function FixtureTexts(now: int): seq<TranslatedText>
  {
    [ TranslatedText(1, "TEST_TEXT_KEY", "sv", "sv-text-val", now, now),
      TranslatedText(2, "TEST_TEXT_KEY", "en", "en-text-val", now, now),
      TranslatedText(3, "OTHER_TEXT_KEY", "sv", "sv-other-val", now, now),
      TranslatedText(4, "OTHER_TEXT_KEY", "en", "en-other-val", now, now),
      TranslatedText(5, "ONLY_SV_TEXT_KEY", "sv", "sv-only-val", now, now),
      TranslatedText(6, "NOT_IN_GROUP", "sv", "sv-non-group-val", now, now),
      TranslatedText(7, "NOT_IN_GROUP", "en", "en-non-group-val", now, now) ]
  }

  /** No two fixture rows share a (key, language) pair. */
  lemma FixtureUnique(now: int)
    ensures UniqueNaturalKeys(FixtureTexts(now))
  {
  }

  /** The three members of group MOBILE_APP. */
  function FixtureMemberships(): set<(string, string)>
  {
    {("TEST_TEXT_KEY", "MOBILE_APP"), ("OTHER_TEXT_KEY", "MOBILE_APP"), ("ONLY_SV_TEXT_KEY", "MOBILE_APP")}
  }

  /** A getter over one healthy database holding exactly the fixture. */
  ghost predicate TestEnv(g: Getter, now: int)
    reads g.Footprint()
  {
    var db := g.textRepo.db;
    && g.languageRepo.db == db && g.groupRepo.db == db
    && g.languageRepo.fault == Healthy && g.textRepo.fault == Healthy && g.groupRepo.fault == Healthy
    && g.groupRepo.interruption == None
    && db.languages == map["sv" := now, "en" := now]
    && db.translatedTexts == FixtureTexts(now)
    && db.textGroups == map["MOBILE_APP" := now]
    && db.memberships == FixtureMemberships()
  }

  /** Registers the fixture's two languages, which the empty registry accepts. */
  method SaveFixtureLanguages(langRepo: LanguageRepo, now: int)
    requires langRepo.fault == Healthy && langRepo.db.languages == map[]
    modifies langRepo.db
    ensures langRepo.db.languages == map["sv" := now, "en" := now]
    ensures langRepo.db.translatedTexts == old(langRepo.db.translatedTexts) && langRepo.db.textGroups == old(langRepo.db.textGroups)
    ensures langRepo.db.memberships == old(langRepo.db.memberships) && langRepo.db.textIdSeq == old(langRepo.db.textIdSeq)
  {
    var e0 := langRepo.Save("sv", now);
    var e1 := langRepo.Save("en", now);
  }

  /** Creates group MOBILE_APP with its three member keys, all accepted. */
  method SaveFixtureGroup(groupRepo: GroupRepo, now: int)
    requires groupRepo.fault == Healthy && groupRepo.db.textGroups == map[] && groupRepo.db.memberships == {}
    modifies groupRepo.db
    ensures groupRepo.db.textGroups == map["MOBILE_APP" := now]
    ensures groupRepo.db.memberships == FixtureMemberships()
    ensures groupRepo.db.languages == old(groupRepo.db.languages) && groupRepo.db.translatedTexts == old(groupRepo.db.translatedTexts)
    ensures groupRepo.db.textIdSeq == old(groupRepo.db.textIdSeq)
  {
    var e9 := groupRepo.Save(TextGroup("MOBILE_APP", 0), now);
    var e10 := groupRepo.AddTextToGroup("TEST_TEXT_KEY", "MOBILE_APP");
    var e11 := groupRepo.AddTextToGroup("OTHER_TEXT_KEY", "MOBILE_APP");
    var e12 := groupRepo.AddTextToGroup("ONLY_SV_TEXT_KEY", "MOBILE_APP");
  }

  /** Inserts fixture row `n` through the text repository, which accepts it. */
  method SaveFixtureText(textRepo: TextRepo, now: int, n: nat)
    requires n < |FixtureTexts(now)|
    requires textRepo.fault == Healthy && textRepo.db.translatedTexts == FixtureTexts(now)[..n]
    requires textRepo.db.textIdSeq == n
    modifies textRepo.db
    ensures textRepo.db.translatedTexts == FixtureTexts(now)[..n + 1] && textRepo.db.textIdSeq == n + 1
    ensures textRepo.db.languages == old(textRepo.db.languages) && textRepo.db.textGroups == old(textRepo.db.textGroups)
    ensures textRepo.db.memberships == old(textRepo.db.memberships)
  {
    var rows := FixtureTexts(now);
    FixtureRowIsNew(now, n);
    var err := textRepo.Save(TranslatedText(0, rows[n].key, rows[n].language, rows[n].value, 0, 0), now);
    assert rows[..n + 1] == rows[..n] + [rows[n]];
  }

  /**
   * Before row `n` is inserted, the rows already stored are unique and lack
   * its pair, and row `n` is what the insert appends as the sequence's
   * `n + 1`-th value.
   */
  lemma FixtureRowIsNew(now: int, n: nat)
    requires n < |FixtureTexts(now)|
    ensures UniqueNaturalKeys(FixtureTexts(now)[..n])
    ensures !HasText(FixtureTexts(now)[..n], FixtureTexts(now)[n].key, FixtureTexts(now)[n].language)
    ensures var t := FixtureTexts(now)[n]; t == TranslatedText(n + 1, t.key, t.language, t.value, now, now)
  {
    var rows := FixtureTexts(now);
    FixtureUnique(now);
    forall i | 0 <= i < n ensures rows[..n][i] == rows[i] {
    }
  }

  /** Inserts the seven fixture rows in order into an empty table. */
  method SaveFixtureTexts(textRepo: TextRepo, now: int)
    requires textRepo.fault == Healthy && textRepo.db.translatedTexts == [] && textRepo.db.textIdSeq == 0
    modifies textRepo.db
    ensures textRepo.db.translatedTexts == FixtureTexts(now) && textRepo.db.Valid()
    ensures textRepo.db.languages == old(textRepo.db.languages) && textRepo.db.textGroups == old(textRepo.db.textGroups)
    ensures textRepo.db.memberships == old(textRepo.db.memberships)
  {
    SaveFixtureText(textRepo, now, 0);
    SaveFixtureText(textRepo, now, 1);
    SaveFixtureText(textRepo, now, 2);
    SaveFixtureText(textRepo, now, 3);
    SaveFixtureText(textRepo, now, 4);
    SaveFixtureText(textRepo, now, 5);
    SaveFixtureText(textRepo, now, 6);
    assert FixtureTexts(now)[..7] == FixtureTexts(now);
    FixtureUnique(now);
  }

  /** `createTestEnv`: every one of its thirteen inserts succeeds on a fresh database. */
  method CreateTestEnv(now: int) returns (g: Getter)
    ensures TestEnv(g, now) && g.textRepo.db.Valid()
  {
    var db := new Db();
    var langRepo := new LanguageRepo(db);
    var textRepo := new TextRepo(db);
    var groupRepo := new GroupRepo(db);
    SaveFixtureLanguages(langRepo, now);
    SaveFixtureTexts(textRepo, now);
    SaveFixtureGroup(groupRepo, now);
    g := new Getter(langRepo, textRepo, groupRepo);
  }

  /** TestGetTextOK: the key resolves to its Swedish and to its English value. */
  lemma TestGetTextOK(g: Getter, now: int, requestId: string)
    requires TestEnv(g, now)
    ensures GetTextByKey(g, Request(requestId, "sv", "TEST_TEXT_KEY")) == Json(200, map["TEST_TEXT_KEY" := "sv-text-val"])
    ensures GetTextByKey(g, Request(requestId, "en", "TEST_TEXT_KEY")) == Json(200, map["TEST_TEXT_KEY" := "en-text-val"])
  {
    FixtureUnique(now);
    GetReturnsStoredValue(g, Context(requestId, "sv"), 0);
    GetReturnsStoredValue(g, Context(requestId, "en"), 1);
  }

  /** TestGetTextFail: no language and an unsupported one are 400, a key without an English text is 404. */
  lemma TestGetTextFail(g: Getter, now: int, requestId: string)
    requires TestEnv(g, now)
    ensures GetTextByKey(g, Request(requestId, "", "TEST_TEXT_KEY")) == Failed(HttpUtil.BadRequest("No language specified"))
    ensures GetTextByKey(g, Request(requestId, "xy", "TEST_TEXT_KEY")) == Failed(HttpUtil.BadRequest("Unsupported language: xy"))
    ensures GetTextByKey(g, Request(requestId, "en", "ONLY_SV_TEXT_KEY")) == Failed(HttpUtil.ErrNotFound)
    ensures StatusCode(GetTextByKey(g, Request(requestId, "", "TEST_TEXT_KEY"))) == 400
    ensures StatusCode(GetTextByKey(g, Request(requestId, "xy", "TEST_TEXT_KEY"))) == 400
    ensures StatusCode(GetTextByKey(g, Request(requestId, "en", "ONLY_SV_TEXT_KEY"))) == 404
  {
    var rows := FixtureTexts(now);
    assert !HasText(rows, "ONLY_SV_TEXT_KEY", "en") by {
      forall i | 0 <= i < |rows| ensures rows[i].key != "ONLY_SV_TEXT_KEY" || rows[i].language != "en" {}
    }
  }

  /** The Swedish join of MOBILE_APP: rows 1, 3 and 5 of the fixture. */
  lemma FixtureJoinSwedish(now: int)
    ensures Join(FixtureTexts(now), FixtureMemberships(), "MOBILE_APP", "sv") ==
              [FixtureTexts(now)[0], FixtureTexts(now)[2], FixtureTexts(now)[4]]
  {
    var rows, m := FixtureTexts(now), FixtureMemberships();
    assert Join(rows[7..], m, "MOBILE_APP", "sv") == [];
    assert Join(rows[6..], m, "MOBILE_APP", "sv") == [];
    assert Join(rows[5..], m, "MOBILE_APP", "sv") == [];
    assert Join(rows[4..], m, "MOBILE_APP", "sv") == [rows[4]];
    assert Join(rows[3..], m, "MOBILE_APP", "sv") == [rows[4]];
    assert Join(rows[2..], m, "MOBILE_APP", "sv") == [rows[2], rows[4]];
    assert Join(rows[1..], m, "MOBILE_APP", "sv") == [rows[2], rows[4]];
    assert rows[0..] == rows;
  }

  /** The English join of MOBILE_APP: rows 2 and 4 of the fixture; ONLY_SV_TEXT_KEY has no English row. */
  lemma FixtureJoinEnglish(now: int)
    ensures Join(FixtureTexts(now), FixtureMemberships(), "MOBILE_APP", "en") ==
              [FixtureTexts(now)[1], FixtureTexts(now)[3]]
  {
    var rows, m := FixtureTexts(now), FixtureMemberships();
    assert Join(rows[7..], m, "MOBILE_APP", "en") == [];
    assert Join(rows[6..], m, "MOBILE_APP", "en") == [];
    assert Join(rows[5..], m, "MOBILE_APP", "en") == [];
    assert Join(rows[4..], m, "MOBILE_APP", "en") == [];
    assert Join(rows[3..], m, "MOBILE_APP", "en") == [rows[3]];
    assert Join(rows[2..], m, "MOBILE_APP", "en") == [rows[3]];
    assert Join(rows[1..], m, "MOBILE_APP", "en") == [rows[1], rows[3]];
    assert rows[0..] == rows;
  }

  /** Folding two texts into a map. */
  lemma TextsMapOfTwo(a: TranslatedText, b: TranslatedText)
    ensures TextsMap([a, b]) == map[a.key := a.value, b.key := b.value]
  {
    TextsMapSingle(a);
    assert [a, b][..1] == [a];
  }

  /** Folding three texts into a map. */
  lemma TextsMapOfThree(a: TranslatedText, b: TranslatedText, c: TranslatedText)
    ensures TextsMap([a, b, c]) == map[a.key := a.value, b.key := b.value, c.key := c.value]
  {
    TextsMapOfTwo(a, b);
    assert [a, b, c][..2] == [a, b];
  }

  /** TestGetTextsByGroupOK, Swedish half: all three members of the group have a Swedish text. */
  lemma TestGetTextsByGroupOKSwedish(g: Getter, now: int, requestId: string)
    requires TestEnv(g, now)
    ensures GetTextGroup(g, Request(requestId, "sv", "MOBILE_APP")) ==
              Json(200, map["TEST_TEXT_KEY" := "sv-text-val", "OTHER_TEXT_KEY" := "sv-other-val", "ONLY_SV_TEXT_KEY" := "sv-only-val"])
  {
    var rows := FixtureTexts(now);
    var ctx := Context(requestId, "sv");
    assert CreateContext(Request(requestId, "sv", "MOBILE_APP")) == ctx;
    FixtureJoinSwedish(now);
    GetGroupFoldsTheJoin(g, ctx, "MOBILE_APP");
    TextsMapOfThree(rows[0], rows[2], rows[4]);
  }

  /** TestGetTextsByGroupOK, English half: the Swedish-only member is silently left out. */
  lemma TestGetTextsByGroupOKEnglish(g: Getter, now: int, requestId: string)
    requires TestEnv(g, now)
    ensures GetTextGroup(g, Request(requestId, "en", "MOBILE_APP")) ==
              Json(200, map["TEST_TEXT_KEY" := "en-text-val", "OTHER_TEXT_KEY" := "en-other-val"])
  {
    var rows := FixtureTexts(now);
    var ctx := Context(requestId, "en");
    assert CreateContext(Request(requestId, "en", "MOBILE_APP")) == ctx;
    FixtureJoinEnglish(now);
    GetGroupFoldsTheJoin(g, ctx, "MOBILE_APP");
    TextsMapOfTwo(rows[1], rows[3]);
  }

  /** TestGetTextsByGroupFail: no language and an unsupported one are 400, a group that does not exist is 404. */
  lemma TestGetTextsByGroupFail(g: Getter, now: int, requestId: string)
    requires TestEnv(g, now)
    ensures GetTextGroup(g, Request(requestId, "", "MOBILE_APP")) == Failed(HttpUtil.BadRequest("No language specified"))
    ensures GetTextGroup(g, Request(requestId, "xy", "MOBILE_APP")) == Failed(HttpUtil.BadRequest("Unsupported language: xy"))
    ensures GetTextGroup(g, Request(requestId, "sv", "MISSING_GROUP")) == Failed(HttpUtil.ErrNotFound)
    ensures GetTextGroup(g, Request(requestId, "en", "MISSING_GROUP")) == Failed(HttpUtil.ErrNotFound)
    ensures StatusCode(GetTextGroup(g, Request(requestId, "en", "MISSING_GROUP"))) == 404
  {
    var rows := FixtureTexts(now);
    var memberships := g.groupRepo.db.memberships;
    forall i | 0 <= i < |rows| ensures (rows[i].key, "MISSING_GROUP") !in memberships {}
  }
}
