/** A single-language translation table: the language and its ordered,
    read-only mapping from localization keys to texts, with lookup, search,
    serialization, comparison and record translation. */
module Localization {
  import opened JsObject
  import opened JsString
  import opened Keys
  import opened TextSearch
  import opened Comparison
  import opened Translation

  /** A language code, compared only for equality. */
  type Language = string

  /** The outcome of an operation that can throw. */
  datatype Result<T> = Ok(value: T) | Error(message: string)

  const LanguageMismatch: string := "Languages do not match"

  /** The key patterns of the templated getters. */
  datatype KeyTemplate = DragonName | DragonDescription | AttackName | SkillName | SkillDescription

  function TemplatePrefix(t: KeyTemplate): string
  {
    match t
    case DragonName => "tid_unit_"
    case DragonDescription => "tid_unit_"
    case AttackName => "tid_attack_name_"
    case SkillName => "tid_skill_name_"
    case SkillDescription => "tid_skill_description_"
  }

  function TemplateSuffix(t: KeyTemplate): string
  {
    match t
    case DragonName => "_name"
    case DragonDescription => "_description"
    case _ => ""
  }

  /** The key a templated getter reads for the identifier `id`. */
  function TemplateKey(t: KeyTemplate, id: int): string
  {
    TemplatePrefix(t) + NumberToString(id) + TemplateSuffix(t)
  }

  /** Different getters, or different identifiers, never read the same key. */
  lemma TemplateKeysDistinct(t: KeyTemplate, a: int, u: KeyTemplate, b: int)
    ensures TemplateKey(t, a) == TemplateKey(u, b) <==> t == u && a == b
  {
    if t == u {
      SameTemplateSameMiddle(t, NumberToString(a), NumberToString(b));
      NumberToStringInjective(a, b);
    } else {
      TemplatesDiffer(t, u, NumberToString(a), NumberToString(b));
    }
  }

  /** A key of one template determines the text spliced into it. */
  lemma SameTemplateSameMiddle(t: KeyTemplate, m1: string, m2: string)
    ensures TemplatePrefix(t) + m1 + TemplateSuffix(t) == TemplatePrefix(t) + m2 + TemplateSuffix(t) <==> m1 == m2
  {
    var x, y := TemplatePrefix(t) + m1 + TemplateSuffix(t), TemplatePrefix(t) + m2 + TemplateSuffix(t);
    var p, q := |TemplatePrefix(t)|, |TemplateSuffix(t)|;
    assert x[p..|x| - q] == m1;
    assert y[p..|y| - q] == m2;
  }

  /** Keys of two different templates differ, whatever is spliced into
      them: at the fifth character, at the eleventh for the two skill
      templates, or at the last for the two unit templates. */
  lemma TemplatesDiffer(t: KeyTemplate, u: KeyTemplate, m1: string, m2: string)
    requires t != u
    ensures TemplatePrefix(t) + m1 + TemplateSuffix(t) != TemplatePrefix(u) + m2 + TemplateSuffix(u)
  {
    var x, y := TemplatePrefix(t) + m1 + TemplateSuffix(t), TemplatePrefix(u) + m2 + TemplateSuffix(u);
    assert x[4] == TemplatePrefix(t)[4] && y[4] == TemplatePrefix(u)[4];
    if TemplatePrefix(t)[4] == TemplatePrefix(u)[4] {
      if t.SkillName? || t.SkillDescription? {
        assert x[10] == TemplatePrefix(t)[10] && y[10] == TemplatePrefix(u)[10];
      } else {
        assert x[|x| - 1] == TemplateSuffix(t)[|TemplateSuffix(t)| - 1];
        assert y[|y| - 1] == TemplateSuffix(u)[|TemplateSuffix(u)| - 1];
      }
    }
  }

  /** The entries of `o`, in order, whose text is `value`: the key of the
      first one. */
  function FirstKeyWithValue(o: Obj<string>, value: string): (r: Option<string>)
    ensures r.None? <==> value !in ValuesOf(o)
    ensures r.Some? ==> exists i :: 0 <= i < |o| && o[i] == Prop(r.value, value)
                                    && forall j :: 0 <= j < i ==> o[j].value != value
  {
    if o == [] then None
    else if o[0].value == value then Some(o[0].key)
    else
      var r := FirstKeyWithValue(o[1..], value);
      assert ValuesOf(o) == [o[0].value] + ValuesOf(o[1..]);
      FirstKeyShift(o, value, r);
      r
  }

  /** A first match in the tail of `o` is a first match in `o` when the
      head does not match. */
  lemma FirstKeyShift(o: Obj<string>, value: string, r: Option<string>)
    requires o != [] && o[0].value != value
    requires r.Some? ==> exists i :: 0 <= i < |o[1..]| && o[1..][i] == Prop(r.value, value)
                                     && forall j :: 0 <= j < i ==> o[1..][j].value != value
    ensures r.Some? ==> exists i :: 0 <= i < |o| && o[i] == Prop(r.value, value)
                                    && forall j :: 0 <= j < i ==> o[j].value != value
  {
    if r.Some? {
      var i :| 0 <= i < |o[1..]| && o[1..][i] == Prop(r.value, value)
               && forall j :: 0 <= j < i ==> o[1..][j].value != value;
      assert o[i + 1] == Prop(r.value, value);
      assert forall j :: 1 <= j < i + 1 ==> o[j] == o[1..][j - 1];
    }
  }

  datatype Localization = Localization(language: Language, data: Obj<string>)
  {
    /** A table's keys are unique, as in any JavaScript object. */
    predicate Valid()
    {
      DistinctKeys(data)
    }

    /** The text stored under `key`, or none. */
    function GetValueFromKey(key: string): (r: Option<string>)
      ensures r.None? <==> !HasKey(data, key)
      ensures r.Some? ==> Prop(key, r.value) in data
      ensures Valid() ==> forall i :: 0 <= i < |data| && data[i].key == key ==> r == Some(data[i].value)
    {
      var r := Get(data, key);
      if Valid() then
        assert forall i :: 0 <= i < |data| && data[i].key == key ==> r == Some(data[i].value) by {
          forall i | 0 <= i < |data| && data[i].key == key { GetAt(data, i); }
        }
        r
      else r
    }

    /** The first key, in table order, whose text is exactly `value`. */
    function GetKeyFromValue(value: string): (r: Option<string>)
      ensures r.None? <==> forall i :: 0 <= i < |data| ==> data[i].value != value
      ensures r.Some? ==> exists i :: 0 <= i < |data| && data[i] == Prop(r.value, value)
                                      && forall j :: 0 <= j < i ==> data[j].value != value
    {
      var r := FirstKeyWithValue(data, value);
      assert forall i :: 0 <= i < |data| ==> ValuesOf(data)[i] == data[i].value;
      r
    }

    function GetDragonName(id: int): (r: Option<string>)
      ensures r.None? <==> !HasKey(data, "tid_unit_" + NumberToString(id) + "_name")
      ensures r.Some? ==> Prop("tid_unit_" + NumberToString(id) + "_name", r.value) in data
    {
      GetValueFromKey(TemplateKey(DragonName, id))
    }

    function GetDragonDescription(id: int): (r: Option<string>)
      ensures r.None? <==> !HasKey(data, "tid_unit_" + NumberToString(id) + "_description")
      ensures r.Some? ==> Prop("tid_unit_" + NumberToString(id) + "_description", r.value) in data
    {
      GetValueFromKey(TemplateKey(DragonDescription, id))
    }

    function GetAttackName(id: int): (r: Option<string>)
      ensures r.None? <==> !HasKey(data, "tid_attack_name_" + NumberToString(id))
      ensures r.Some? ==> Prop("tid_attack_name_" + NumberToString(id), r.value) in data
    {
      assert TemplateKey(AttackName, id) == "tid_attack_name_" + NumberToString(id);
      GetValueFromKey(TemplateKey(AttackName, id))
    }

    function GetSkillName(id: int): (r: Option<string>)
      ensures r.None? <==> !HasKey(data, "tid_skill_name_" + NumberToString(id))
      ensures r.Some? ==> Prop("tid_skill_name_" + NumberToString(id), r.value) in data
    {
      assert TemplateKey(SkillName, id) == "tid_skill_name_" + NumberToString(id);
      GetValueFromKey(TemplateKey(SkillName, id))
    }

    function GetSkillDescription(id: int): (r: Option<string>)
      ensures r.None? <==> !HasKey(data, "tid_skill_description_" + NumberToString(id))
      ensures r.Some? ==> Prop("tid_skill_description_" + NumberToString(id), r.value) in data
    {
      assert TemplateKey(SkillDescription, id) == "tid_skill_description_" + NumberToString(id);
      GetValueFromKey(TemplateKey(SkillDescription, id))
    }

    /** `normalizeText`: the text is reassigned step by step. */
    method NormalizeText(ops: UnicodeOps, text: string, opts: NormalizeTextOptions) returns (result: string)
      ensures result == Normalized(ops, text, opts)
    {
      result := text;
      if opts.lowerCase {
        result := ops.toLowerCase(result);
      }
      ghost var lowered := result;
      if opts.normalizeLetters {
        result := RemoveCombiningMarks(ops.normalizeNfd(result));
      }
      ghost var stripped := result;
      if opts.trimSpaces {
        result := Trim(result);
      }
      assert lowered == if opts.lowerCase then ops.toLowerCase(text) else text;
      assert stripped == StripStep(ops, lowered, opts.normalizeLetters);
      assert result == TrimStep(stripped, opts.trimSpaces);
    }

    /** The keys, in table order, whose normalized form contains the
        normalized query. */
    function SearchKeys(ops: UnicodeOps, query: string, opts: NormalizeTextOptions): (r: seq<string>)
      ensures forall k :: k in r <==> HasKey(data, k) && Includes(Normalized(ops, k, opts), Normalized(ops, query, opts))
      ensures Normalized(ops, query, opts) == "" ==> r == KeysOf(data)
    {
      var q := Normalized(ops, query, opts);
      if q == "" then MatchingEmptyQuery(ops, KeysOf(data), opts); Matching(ops, KeysOf(data), q, opts)
      else Matching(ops, KeysOf(data), q, opts)
    }

    /** The texts, in table order and with their repetitions, whose
        normalized form contains the normalized query. */
    function SearchValues(ops: UnicodeOps, query: string, opts: NormalizeTextOptions): (r: seq<string>)
      ensures forall v :: multiset(r)[v]
                          == if Includes(Normalized(ops, v, opts), Normalized(ops, query, opts))
                             then multiset(ValuesOf(data))[v] else 0
      ensures Normalized(ops, query, opts) == "" ==> r == ValuesOf(data)
    {
      var q := Normalized(ops, query, opts);
      if q == "" then MatchingEmptyQuery(ops, ValuesOf(data), opts); Matching(ops, ValuesOf(data), q, opts)
      else Matching(ops, ValuesOf(data), q, opts)
    }

    /** The table's own object: every key reads, through it, the text
        `GetValueFromKey` gives. */
    function ToObject(): (o: Obj<string>)
      ensures forall k :: Get(o, k) == GetValueFromKey(k)
      ensures KeysOf(o) == KeysOf(data)
    {
      data
    }

    /** One single-entry object per entry, in table order. */
    function ToArray(): (arr: seq<Obj<string>>)
      ensures |arr| == |data|
      ensures forall i :: 0 <= i < |arr| ==> |arr[i]| == 1 && arr[i][0] == data[i]
    {
      seq(|data|, i requires 0 <= i < |data| => [data[i]])
    }

    /** `compare(a, b)`: `a` is the old snapshot and `b` the new one. */
    static method Compare(a: Localization, b: Localization) returns (r: Result<ComparisonResult>)
      requires a.Valid() && b.Valid()
      ensures r.Error? <==> a.language != b.language
      ensures r.Error? ==> r.message == LanguageMismatch
      ensures r.Ok? ==> r.value == ComparisonOf(a.data, b.data)
    {
      var newFields: seq<NewField> := [];
      var editedFields: seq<EditedField> := [];
      var deletedFields: seq<DeletedField> := [];
      var oldObject := a.ToObject();
      var newObject := b.ToObject();

      if a.language != b.language {
        return Error(LanguageMismatch);
      }

      for i := 0 to |newObject|
        invariant newFields == NewFieldsOf(oldObject, newObject[..i])
        invariant editedFields == EditedFieldsOf(oldObject, newObject[..i])
      {
        var key := newObject[i].key;
        NewFieldsOfStep(oldObject, newObject, i);
        EditedFieldsOfStep(oldObject, newObject, i);
        GetAt(newObject, i);
        if !HasKey(oldObject, key) {
          newFields := newFields + [NewField(key, Get(newObject, key).value)];
        } else if Get(newObject, key).value != Get(oldObject, key).value {
          editedFields := editedFields + [EditedField(key, EditedValues(Get(oldObject, key).value, Get(newObject, key).value))];
        }
      }
      assert newObject[..|newObject|] == newObject;

      for i := 0 to |oldObject|
        invariant deletedFields == DeletedFieldsOf(oldObject[..i], newObject)
      {
        var key := oldObject[i].key;
        DeletedFieldsOfStep(oldObject, newObject, i);
        GetAt(oldObject, i);
        if !HasKey(newObject, key) {
          deletedFields := deletedFields + [DeletedField(key, Get(oldObject, key).value)];
        }
      }
      assert oldObject[..|oldObject|] == oldObject;

      return Ok(ComparisonResult(newFields, editedFields, deletedFields));
    }

    /** The instance form of `Compare`, with this table as the old one. */
    method CompareWith(other: Localization) returns (r: Result<ComparisonResult>)
      requires Valid() && other.Valid()
      ensures r.Error? <==> language != other.language
      ensures r.Error? ==> r.message == LanguageMismatch
      ensures r.Ok? ==> r.value == ComparisonOf(data, other.data)
    {
      r := Compare(this, other);
    }

    /** One branch of the `translate` loop: the alias field's key is looked
        up, and a non-empty text is stored under `target` in place of the
        alias field. */
    method ReplaceAliasField<V>(obj: Record<V>, field: Prop<Value<V>>, target: string) returns (r: Record<V>)
      ensures r == ReplaceAlias(data, obj, field, target)
    {
      r := obj;
      var text := Resolve(data, field.value);
      if text.Some? && text.value != "" {
        r := Set(r, target, Str(text.value));
        r := Delete(r, field.key);
      }
    }

    /** The body of the `translate` loop for one field of the original
        record: a name or type alias, and then separately a description
        alias. */
    method TranslateField<V>(obj: Record<V>, field: Prop<Value<V>>) returns (r: Record<V>)
      ensures r == TranslateStep(data, obj, field)
    {
      r := obj;
      if field.key in NameKeysToTranslate {
        r := ReplaceAliasField(r, field, TargetField(Name));
      } else if field.key in TypeNameKeysToTranslate {
        r := ReplaceAliasField(r, field, TargetField(TypeName));
      }
      if field.key in DescriptionKeysToTranslate {
        r := ReplaceAliasField(r, field, TargetField(Description));
      }
    }

    /** `translate`: works on a copy of `record`, and in one pass over its
        fields replaces each resolved alias by the field of its category. */
    method Translate<V>(record: Record<V>) returns (translated: Record<V>)
      requires DistinctKeys(record)
      ensures translated == TranslateFold(data, record, record)
      ensures forall n :: Get(translated, n) == ExpectedField(data, record, record, n)
      ensures DistinctKeys(translated)
    {
      var translatedObject := record;
      var keys := KeysOf(translatedObject);
      for i := 0 to |keys|
        invariant translatedObject == TranslateFold(data, record, record[..i])
      {
        var key := keys[i];
        GetAt(record, i);
        var field := Prop(key, Get(record, key).value);
        assert field == record[i];
        assert record[..i + 1][..i] == record[..i];
        translatedObject := TranslateField(translatedObject, field);
      }
      assert record[..|record|] == record;
      translated := translatedObject;
      forall n | true ensures Get(translated, n) == ExpectedField(data, record, record, n) {
        TranslateFoldField(data, record, record, n);
      }
      TranslateFoldDistinct(data, record, record);
    }
  }

  /** `create` once the wire array has been fetched: the objects are merged
      from left to right into one table, so a key holds its text in the last
      object that has it. */
  function Create(language: Language, arrayData: seq<Obj<string>>): (l: Localization)
    ensures l.Valid() && l.language == language
    ensures forall k :: HasKey(l.data, k) <==> exists i :: 0 <= i < |arrayData| && HasKey(arrayData[i], k)
    ensures AllDistinctKeys(arrayData) ==>
              forall k, i :: LastToHave(arrayData, i, k) ==> l.GetValueFromKey(k) == Get(arrayData[i], k)
  {
    Localization(language, AssignAll([], arrayData))
  }

  /** Re-serializing a table and merging the array back gives the table,
      with its order. */
  lemma {:induction false} CreateFromArray(l: Localization)
    requires l.Valid()
    ensures Create(l.language, l.ToArray()) == l
  {
    MergeSingleEntries(l.data);
  }

  lemma {:induction false} MergeSingleEntries(d: Obj<string>)
    requires DistinctKeys(d)
    ensures AssignAll([], Localization("", d).ToArray()) == d
    decreases |d|
  {
    if d != [] {
      var init, e := d[..|d| - 1], d[|d| - 1];
      assert init + [e] == d;
      var arr, arrInit := Localization("", d).ToArray(), Localization("", init).ToArray();
      assert arr == arrInit + [[e]];
      DistinctInit(d);
      MergeSingleEntries(init);
      AssignAllSnoc([], arrInit, [e]);
      AssignSingle(init, e);
    }
  }

  /** Looking a text up and then its key up again: the reverse lookup finds
      some key holding the text, and that key reads the text back. */
  lemma KeyFromValueRoundTrip(l: Localization, k: string)
    requires l.Valid() && HasKey(l.data, k)
    ensures l.GetKeyFromValue(l.GetValueFromKey(k).value).Some?
    ensures l.GetValueFromKey(l.GetKeyFromValue(l.GetValueFromKey(k).value).value) == l.GetValueFromKey(k)
  {
    var v := l.GetValueFromKey(k).value;
    var i :| 0 <= i < |l.data| && l.data[i] == Prop(k, v);
    var k' := l.GetKeyFromValue(v).value;
    var j :| 0 <= j < |l.data| && l.data[j] == Prop(k', v);
    GetAt(l.data, j);
  }
}
