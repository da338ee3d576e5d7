/** The field names that `translate` recognises as holding a localization
    key, in both spellings the game's records use, grouped by the field they
    are translated into. */
module Keys {
  import opened Sequences

  /** The three groups of aliases: `name`, `typeName` and `description`. */
  datatype Category = Name | TypeName | Description

  /** One spelling convention's alias lists, one per category. */
  datatype AliasTable = AliasTable(name: seq<string>, typeName: seq<string>, description: seq<string>)
  {
    function Of(c: Category): seq<string>
    {
      match c
      case Name => name
      case TypeName => typeName
      case Description => description
    }
  }

  const SnakeCaseKeysToTranslate: AliasTable := AliasTable(
    ["tid_name", "chest_name_key", "name_key", "island_title_tid"],
    ["type_name_key"],
    ["description_key", "tid_description"])

  const CamelCaseKeysToTranslate: AliasTable := AliasTable(
    ["tidName", "chestNameKey", "nameKey", "islandTitleTid"],
    ["typeNameKey"],
    ["descriptionKey", "tidDescription"])

  const NameKeysToTranslate: seq<string> :=
    SnakeCaseKeysToTranslate.name + CamelCaseKeysToTranslate.name

  const TypeNameKeysToTranslate: seq<string> :=
    SnakeCaseKeysToTranslate.typeName + CamelCaseKeysToTranslate.typeName

  const DescriptionKeysToTranslate: seq<string> :=
    SnakeCaseKeysToTranslate.description + CamelCaseKeysToTranslate.description

  /** The combined list of a category: its snake_case aliases, then its
      camelCase ones. */
  function KeysToTranslate(c: Category): (r: seq<string>)
    ensures r == SnakeCaseKeysToTranslate.Of(c) + CamelCaseKeysToTranslate.Of(c)
  {
    match c
    case Name => NameKeysToTranslate
    case TypeName => TypeNameKeysToTranslate
    case Description => DescriptionKeysToTranslate
  }

  /** The field a category's aliases are translated into. */
  function TargetField(c: Category): string
  {
    match c
    case Name => "name"
    case TypeName => "type"
    case Description => "description"
  }

  /** The combined lists, with their sizes and their order. */
  lemma CombinedLists()
    ensures NameKeysToTranslate == ["tid_name", "chest_name_key", "name_key", "island_title_tid",
                                    "tidName", "chestNameKey", "nameKey", "islandTitleTid"]
    ensures TypeNameKeysToTranslate == ["type_name_key", "typeNameKey"]
    ensures DescriptionKeysToTranslate == ["description_key", "tid_description",
                                           "descriptionKey", "tidDescription"]
    ensures |NameKeysToTranslate| == 8 && |TypeNameKeysToTranslate| == 2
    ensures |DescriptionKeysToTranslate| == 4
  {
  }

  /** No field name belongs to two categories, and none of the fields that
      `translate` writes is itself an alias. */
  lemma AliasListsDisjoint(c: Category, d: Category, f: string)
    ensures c != d && f in KeysToTranslate(c) ==> f !in KeysToTranslate(d)
    ensures TargetField(d) !in KeysToTranslate(c)
  {
    NameAliasesOnly(f);
    TypeNameAliasesOnly(f);
    TargetsAreNoAliases();
  }

  lemma NameAliasesOnly(f: string)
    ensures f in NameKeysToTranslate ==> f !in TypeNameKeysToTranslate && f !in DescriptionKeysToTranslate
  {
    NameAliasesNotTypeName(f);
    NameAliasesNotDescription(f);
  }

  lemma NameAliasesNotTypeName(f: string)
    ensures f in NameKeysToTranslate ==> f !in TypeNameKeysToTranslate
  {
    CombinedLists();
  }

  lemma NameAliasesNotDescription(f: string)
    ensures f in NameKeysToTranslate ==> f !in DescriptionKeysToTranslate
  {
    CombinedLists();
  }

  lemma TypeNameAliasesOnly(f: string)
    ensures f in TypeNameKeysToTranslate ==> f !in DescriptionKeysToTranslate
  {
    CombinedLists();
  }

  lemma TargetsAreNoAliases()
    ensures forall c, d :: TargetField(d) !in KeysToTranslate(c)
  {
    CombinedLists();
    forall c, d ensures TargetField(d) !in KeysToTranslate(c) {
      match c {
        case Name => assert TargetField(d) !in NameKeysToTranslate;
        case TypeName => assert TargetField(d) !in TypeNameKeysToTranslate;
        case Description => assert TargetField(d) !in DescriptionKeysToTranslate;
      }
    }
  }

  // ---------------------------------------------------------------------------
  // snake_case and camelCase spellings
  // ---------------------------------------------------------------------------

  function ToUpperAscii(c: char): char
  {
    if 'a' <= c <= 'z' then (c as int - 32) as char else c
  }

  /** camelCase spelling of a snake_case identifier: every underscore is
      dropped and the letter after it is upper-cased. */
  function SnakeToCamel(s: string): (r: string)
    ensures |r| <= |s|
  {
    if s == [] then []
    else if s[0] == '_' && |s| >= 2 then [ToUpperAscii(s[1])] + SnakeToCamel(s[2..])
    else [s[0]] + SnakeToCamel(s[1..])
  }

  /** Converting piece by piece is converting the whole, as long as the
      first piece does not end with an underscore. */
  lemma {:induction false} SnakeToCamelAppend(a: string, b: string)
    requires a == [] || a[|a| - 1] != '_'
    ensures SnakeToCamel(a + b) == SnakeToCamel(a) + SnakeToCamel(b)
  {
    if a == [] {
      assert a + b == b;
    } else if a[0] == '_' {
      assert (a + b)[2..] == a[2..] + b;
      SnakeToCamelAppend(a[2..], b);
      ConcatAssoc([ToUpperAscii(a[1])], SnakeToCamel(a[2..]), SnakeToCamel(b));
    } else {
      assert (a + b)[1..] == a[1..] + b;
      SnakeToCamelAppend(a[1..], b);
      ConcatAssoc([a[0]], SnakeToCamel(a[1..]), SnakeToCamel(b));
    }
  }

  /** A word without underscores is its own camelCase spelling. */
  lemma {:induction false} SnakeToCamelPlain(w: string)
    requires '_' !in w
    ensures SnakeToCamel(w) == w
  {
    if w != [] {
      assert '_' !in w[1..];
      SnakeToCamelPlain(w[1..]);
    }
  }

  /** Joining a further word with an underscore upper-cases its first letter
      in the camelCase spelling. */
  lemma SnakeToCamelJoin(w1: string, w2: string)
    requires w1 != [] && w1[|w1| - 1] != '_'
    requires w2 != [] && '_' !in w2
    ensures SnakeToCamel(w1 + "_" + w2) == SnakeToCamel(w1) + [ToUpperAscii(w2[0])] + w2[1..]
  {
    var u := "_" + w2;
    assert w1 + "_" + w2 == w1 + u;
    SnakeToCamelAppend(w1, u);
    SnakeToCamelUnderscore(w2);
    ConcatAssoc(SnakeToCamel(w1), [ToUpperAscii(w2[0])], w2[1..]);
  }

  /** An underscore followed by a word without underscores becomes the word
      with its first letter upper-cased. */
  lemma SnakeToCamelUnderscore(w: string)
    requires w != [] && '_' !in w
    ensures SnakeToCamel("_" + w) == [ToUpperAscii(w[0])] + w[1..]
  {
    var s := "_" + w;
    assert s[0] == '_' && |s| >= 2 && s[1] == w[0] && s[2..] == w[1..];
    assert '_' !in w[1..];
    SnakeToCamelPlain(w[1..]);
  }

  /** The camelCase spelling of two underscore-joined words. */
  lemma SnakeToCamelWords2(w1: string, w2: string)
    requires w1 != [] && '_' !in w1 && w2 != [] && '_' !in w2
    ensures SnakeToCamel(w1 + "_" + w2) == w1 + [ToUpperAscii(w2[0])] + w2[1..]
  {
    SnakeToCamelPlain(w1);
    SnakeToCamelJoin(w1, w2);
  }

  /** The camelCase spelling of three underscore-joined words. */
  lemma SnakeToCamelWords3(w1: string, w2: string, w3: string)
    requires w1 != [] && '_' !in w1 && w2 != [] && '_' !in w2 && w3 != [] && '_' !in w3
    ensures SnakeToCamel(w1 + "_" + w2 + "_" + w3)
         == w1 + [ToUpperAscii(w2[0])] + w2[1..] + [ToUpperAscii(w3[0])] + w3[1..]
  {
    SnakeToCamelWords2(w1, w2);
    var a := w1 + "_" + w2;
    assert a[|a| - 1] == w2[|w2| - 1];
    SnakeToCamelJoin(a, w3);
  }

  lemma CamelSpellingTidName()
    ensures SnakeToCamel("tid_name") == "tidName"
  {
        assert "tid" + "_" + "name" == "tid_name";
        SnakeToCamelWords2("tid", "name");
        assert ToUpperAscii('n') == 'N' && "name"[1..] == "ame";
        assert "tid" + ['N'] + "ame" == "tidName";
  }

  lemma CamelSpellingChestNameKey()
    ensures SnakeToCamel("chest_name_key") == "chestNameKey"
  {
        ChestNameKeyPieces();
        SnakeToCamelWords3("chest", "name", "key");
  }

  lemma CamelSpellingNameKey()
    ensures SnakeToCamel("name_key") == "nameKey"
  {
        assert "name" + "_" + "key" == "name_key";
        SnakeToCamelWords2("name", "key");
        assert ToUpperAscii('k') == 'K' && "key"[1..] == "ey";
        assert "name" + ['K'] + "ey" == "nameKey";
  }

  lemma CamelSpellingIslandTitleTid()
    ensures SnakeToCamel("island_title_tid") == "islandTitleTid"
  {
        IslandTitleTidPieces();
        SnakeToCamelWords3("island", "title", "tid");
  }

  lemma CamelSpellingTypeNameKey()
    ensures SnakeToCamel("type_name_key") == "typeNameKey"
  {
        assert "type" + "_" + "name" + "_" + "key" == "type_name_key";
        SnakeToCamelWords3("type", "name", "key");
        assert ToUpperAscii('n') == 'N' && "name"[1..] == "ame";
        assert ToUpperAscii('k') == 'K' && "key"[1..] == "ey";
        assert "type" + ['N'] + "ame" + ['K'] + "ey" == "typeNameKey";
  }

  lemma CamelSpellingDescriptionKey()
    ensures SnakeToCamel("description_key") == "descriptionKey"
  {
        assert "description" + "_" + "key" == "description_key";
        SnakeToCamelWords2("description", "key");
        assert ToUpperAscii('k') == 'K' && "key"[1..] == "ey";
        assert "description" + ['K'] + "ey" == "descriptionKey";
  }

  lemma CamelSpellingTidDescription()
    ensures SnakeToCamel("tid_description") == "tidDescription"
  {
        TidDescriptionPieces();
        SnakeToCamelWords2("tid", "description");
  }

  lemma ChestNameKeyPieces()
    ensures "chest" + "_" + "name" + "_" + "key" == "chest_name_key"
    ensures "chest" + [ToUpperAscii("name"[0])] + "name"[1..] + [ToUpperAscii("key"[0])] + "key"[1..] == "chestNameKey"
  {
    assert ToUpperAscii('n') == 'N' && "name"[1..] == "ame" && ToUpperAscii('k') == 'K' && "key"[1..] == "ey";
  }

  lemma IslandTitleTidPieces()
    ensures "island" + "_" + "title" + "_" + "tid" == "island_title_tid"
    ensures "island" + [ToUpperAscii("title"[0])] + "title"[1..] + [ToUpperAscii("tid"[0])] + "tid"[1..] == "islandTitleTid"
  {
    assert ToUpperAscii('t') == 'T' && "title"[1..] == "itle" && "tid"[1..] == "id";
  }

  lemma TidDescriptionPieces()
    ensures "tid" + "_" + "description" == "tid_description"
    ensures "tid" + [ToUpperAscii("description"[0])] + "description"[1..] == "tidDescription"
  {
    assert ToUpperAscii('d') == 'D' && "description"[1..] == "escription";
  }

  /** Each snake_case alias has, at the same position of the same category,
      its camelCase spelling. */
  lemma SnakeAndCamelCounterparts(c: Category, i: int)
    requires 0 <= i < |SnakeCaseKeysToTranslate.Of(c)|
    ensures |CamelCaseKeysToTranslate.Of(c)| == |SnakeCaseKeysToTranslate.Of(c)|
    ensures CamelCaseKeysToTranslate.Of(c)[i] == SnakeToCamel(SnakeCaseKeysToTranslate.Of(c)[i])
  {
    match c {
      case Name =>
        if i == 0 { CamelSpellingTidName(); }
        else if i == 1 { CamelSpellingChestNameKey(); }
        else if i == 2 { CamelSpellingNameKey(); }
        else { CamelSpellingIslandTitleTid(); }
      case TypeName =>
        CamelSpellingTypeNameKey();
      case Description =>
        if i == 0 { CamelSpellingDescriptionKey(); }
        else { CamelSpellingTidDescription(); }
    }
  }
}
