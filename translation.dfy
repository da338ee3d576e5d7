/** What `translate` does to a record: each field named by a localization
    key alias whose key resolves to a non-empty text is replaced by a
    `name`, `type` or `description` field holding that text. */
module Translation {
  import opened JsObject
  import opened Keys

  /** A field value of the record: a string, or any other value. */
  datatype Value<V> = Str(text: string) | Other(other: V)

  type Record<V> = Obj<Value<V>>

  /** `getValueFromKey(object[key])` for a field value, where the table is
      `data`. */
  function Resolve<V>(data: Obj<string>, v: Value<V>): Option<string>
  {
    match v
    case Str(s) => Get(data, s)
    case Other(_) => None
  }

  /** One alias field handled: when its key resolves to a non-empty text,
      that text is stored under `target` and the alias field is deleted. */
  function ReplaceAlias<V>(data: Obj<string>, obj: Record<V>, f: Prop<Value<V>>, target: string): Record<V>
  {
    match Resolve(data, f.value)
    case Some(s) => if s != "" then Delete(Set(obj, target, Str(s)), f.key) else obj
    case None => obj
  }

  /** The body of the `for...in` loop for the field `f` of the original
      record: a name or type alias, and then separately a description alias. */
  function TranslateStep<V>(data: Obj<string>, obj: Record<V>, f: Prop<Value<V>>): Record<V>
  {
    var afterNameOrType :=
      if f.key in NameKeysToTranslate then ReplaceAlias(data, obj, f, TargetField(Name))
      else if f.key in TypeNameKeysToTranslate then ReplaceAlias(data, obj, f, TargetField(TypeName))
      else obj;
    if f.key in DescriptionKeysToTranslate then ReplaceAlias(data, afterNameOrType, f, TargetField(Description))
    else afterNameOrType
  }

  /** The copy `start` after the loop body has run for the fields `done`,
      in order. */
  function TranslateFold<V>(data: Obj<string>, start: Record<V>, done: Record<V>): Record<V>
    decreases |done|
  {
    if done == [] then start
    else TranslateStep(data, TranslateFold(data, start, done[..|done| - 1]), done[|done| - 1])
  }

  // ---------------------------------------------------------------------------
  // Reference description of the result, field by field
  // ---------------------------------------------------------------------------

  /** The category a field name is an alias of, if any. */
  function AliasCategory(n: string): (c: Option<Category>)
    ensures c.Some? <==> n in NameKeysToTranslate || n in TypeNameKeysToTranslate || n in DescriptionKeysToTranslate
    ensures c.Some? ==> n in KeysToTranslate(c.value)
  {
    if n in NameKeysToTranslate then Some(Name)
    else if n in TypeNameKeysToTranslate then Some(TypeName)
    else if n in DescriptionKeysToTranslate then Some(Description)
    else None
  }

  /** The category whose translation is stored in the field `n`, if any. */
  function TargetCategory(n: string): (c: Option<Category>)
    ensures c.Some? ==> TargetField(c.value) == n
    ensures forall d :: TargetField(d) == n ==> c == Some(d)
  {
    if n == "name" then Some(Name)
    else if n == "type" then Some(TypeName)
    else if n == "description" then Some(Description)
    else None
  }

  /** The text an alias field translates to: present when the field is an
      alias and its value is a key with a non-empty text. */
  function Resolution<V>(data: Obj<string>, f: Prop<Value<V>>): Option<string>
  {
    if AliasCategory(f.key).None? then None
    else match Resolve(data, f.value)
      case Some(s) => if s != "" then Some(s) else None
      case None => None
  }

  /** Whether some field of `fs` named `n` is a resolved alias. */
  predicate ResolvedAliasIn<V>(data: Obj<string>, fs: Record<V>, n: string)
    decreases |fs|
  {
    fs != [] &&
    (ResolvedAliasIn(data, fs[..|fs| - 1], n) ||
     (fs[|fs| - 1].key == n && Resolution(data, fs[|fs| - 1]).Some?))
  }

  /** The text of the last resolved alias of category `c` in `fs`. */
  function LastResolution<V>(data: Obj<string>, fs: Record<V>, c: Category): Option<string>
    decreases |fs|
  {
    if fs == [] then None
    else
      var f := fs[|fs| - 1];
      if AliasCategory(f.key) == Some(c) && Resolution(data, f).Some? then Resolution(data, f)
      else LastResolution(data, fs[..|fs| - 1], c)
  }

  /** What the field `n` holds once the fields `done` of `obj` have been
      handled: nothing if it was a resolved alias; the last resolved text of
      its category if it is `name`, `type` or `description` and some alias
      of that category resolved; otherwise what `obj` holds. */
  function ExpectedField<V>(data: Obj<string>, obj: Record<V>, done: Record<V>, n: string): Option<Value<V>>
  {
    if ResolvedAliasIn(data, done, n) then None
    else match TargetCategory(n)
      case Some(c) =>
        (match LastResolution(data, done, c)
         case Some(s) => Some(Str(s))
         case None => Get(obj, n))
      case None => Get(obj, n)
  }

  /** The fields `translate` writes are never aliases themselves. */
  lemma TargetsAreNotAliases(n: string)
    ensures TargetCategory(n).Some? ==> AliasCategory(n).None?
  {
    if TargetCategory(n).Some? {
      var d := TargetCategory(n).value;
      AliasListsDisjoint(Name, d, n);
      AliasListsDisjoint(TypeName, d, n);
      AliasListsDisjoint(Description, d, n);
    }
  }

  /** One loop step, field by field: a resolved alias disappears, its
      category's field takes its text, and nothing else changes. */
  lemma TranslateStepField<V>(data: Obj<string>, obj: Record<V>, f: Prop<Value<V>>, n: string)
    ensures Get(TranslateStep(data, obj, f), n) ==
      match Resolution(data, f)
      case Some(s) =>
        if n == f.key then None
        else if n == TargetField(AliasCategory(f.key).value) then Some(Str(s))
        else Get(obj, n)
      case None => Get(obj, n)
  {
    var c := AliasCategory(f.key);
    if c.Some? {
      AliasListsDisjoint(c.value, c.value, f.key);
      AliasListsDisjoint(Name, Description, f.key);
      AliasListsDisjoint(TypeName, Description, f.key);
      AliasListsDisjoint(Name, TypeName, f.key);
    }
  }

  /** How the reference description changes when one more field is
      handled; it changes exactly as one loop step does. */
  lemma ExpectedFieldStep<V>(data: Obj<string>, obj: Record<V>, done: Record<V>, n: string)
    requires done != []
    ensures ExpectedField(data, obj, done, n) ==
      var f := done[|done| - 1];
      match Resolution(data, f)
      case Some(s) =>
        if n == f.key then None
        else if n == TargetField(AliasCategory(f.key).value) then Some(Str(s))
        else ExpectedField(data, obj, done[..|done| - 1], n)
      case None => ExpectedField(data, obj, done[..|done| - 1], n)
  {
    var init, f := done[..|done| - 1], done[|done| - 1];
    TargetsAreNotAliases(n);
    ResolvedAliasIsAlias(data, init, n);
    if Resolution(data, f).Some? && n != f.key {
      var c := AliasCategory(f.key).value;
      if n == TargetField(c) {
        assert TargetCategory(n) == Some(c);
        assert LastResolution(data, done, c) == Resolution(data, f);
      } else if TargetCategory(n).Some? {
        assert LastResolution(data, done, TargetCategory(n).value) == LastResolution(data, init, TargetCategory(n).value);
      }
    }
  }

  /** Only an alias can be a resolved alias. */
  lemma {:induction false} ResolvedAliasIsAlias<V>(data: Obj<string>, fs: Record<V>, n: string)
    ensures ResolvedAliasIn(data, fs, n) ==> AliasCategory(n).Some?
    decreases |fs|
  {
    if fs != [] {
      ResolvedAliasIsAlias(data, fs[..|fs| - 1], n);
    }
  }

  /** After any sequence of loop steps, every field holds what
      `ExpectedField` says. */
  lemma {:induction false} TranslateFoldField<V>(data: Obj<string>, obj: Record<V>, done: Record<V>, n: string)
    ensures Get(TranslateFold(data, obj, done), n) == ExpectedField(data, obj, done, n)
    decreases |done|
  {
    if done != [] {
      var init, f := done[..|done| - 1], done[|done| - 1];
      TranslateFoldField(data, obj, init, n);
      TranslateStepField(data, TranslateFold(data, obj, init), f, n);
      ExpectedFieldStep(data, obj, done, n);
    }
  }

  /** The loop keeps property names unique. */
  lemma {:induction false} TranslateFoldDistinct<V>(data: Obj<string>, obj: Record<V>, done: Record<V>)
    requires DistinctKeys(obj)
    ensures DistinctKeys(TranslateFold(data, obj, done))
    decreases |done|
  {
    if done != [] {
      TranslateFoldDistinct(data, obj, done[..|done| - 1]);
      TranslateStepDistinct(data, TranslateFold(data, obj, done[..|done| - 1]), done[|done| - 1]);
    }
  }

  /** One pass of the loop body keeps property names unique. */
  lemma TranslateStepDistinct<V>(data: Obj<string>, obj: Record<V>, f: Prop<Value<V>>)
    requires DistinctKeys(obj)
    ensures DistinctKeys(TranslateStep(data, obj, f))
  {
    var afterNameOrType :=
      if f.key in NameKeysToTranslate then ReplaceAlias(data, obj, f, TargetField(Name))
      else if f.key in TypeNameKeysToTranslate then ReplaceAlias(data, obj, f, TargetField(TypeName))
      else obj;
    ReplaceAliasDistinct(data, obj, f, TargetField(Name));
    ReplaceAliasDistinct(data, obj, f, TargetField(TypeName));
    ReplaceAliasDistinct(data, afterNameOrType, f, TargetField(Description));
  }

  lemma ReplaceAliasDistinct<V>(data: Obj<string>, obj: Record<V>, f: Prop<Value<V>>, target: string)
    requires DistinctKeys(obj)
    ensures DistinctKeys(ReplaceAlias(data, obj, f, target))
  {
    match Resolve(data, f.value)
    case Some(s) =>
      if s != "" {
        var named := Set(obj, target, Str(s));
        assert DistinctKeys(named);
      }
    case None =>
  }

  /** A field that is neither an alias nor one of the fields `translate`
      writes comes through untouched. */
  lemma TranslatePassThrough<V>(data: Obj<string>, obj: Record<V>, n: string)
    requires AliasCategory(n).None? && TargetCategory(n).None?
    ensures Get(TranslateFold(data, obj, obj), n) == Get(obj, n)
  {
    TranslateFoldField(data, obj, obj, n);
    ResolvedAliasIsAlias(data, obj, n);
  }

  /** In a record with unique field names, a field is a resolved alias
      exactly when the one field of that name is. */
  lemma {:induction false} ResolvedAliasAt<V>(data: Obj<string>, fs: Record<V>, i: int)
    requires DistinctKeys(fs) && 0 <= i < |fs|
    ensures ResolvedAliasIn(data, fs, fs[i].key) <==> Resolution(data, fs[i]).Some?
    decreases |fs|
  {
    var init := fs[..|fs| - 1];
    assert DistinctKeys(init);
    if i < |fs| - 1 {
      assert init[i] == fs[i];
      ResolvedAliasAt(data, init, i);
    } else {
      NoResolvedAliasWithout(data, init, fs[i].key);
    }
  }

  /** A name that no field carries is not a resolved alias. */
  lemma {:induction false} NoResolvedAliasWithout<V>(data: Obj<string>, fs: Record<V>, n: string)
    requires forall j :: 0 <= j < |fs| ==> fs[j].key != n
    ensures !ResolvedAliasIn(data, fs, n)
    decreases |fs|
  {
    if fs != [] {
      NoResolvedAliasWithout(data, fs[..|fs| - 1], n);
    }
  }

  /** An alias field disappears when its key resolves to a non-empty text,
      and keeps its value otherwise. */
  lemma TranslateAliasField<V>(data: Obj<string>, obj: Record<V>, i: int)
    requires DistinctKeys(obj) && 0 <= i < |obj| && AliasCategory(obj[i].key).Some?
    ensures Get(TranslateFold(data, obj, obj), obj[i].key)
         == if Resolution(data, obj[i]).Some? then None else Some(obj[i].value)
  {
    var n := obj[i].key;
    TranslateFoldField(data, obj, obj, n);
    ResolvedAliasAt(data, obj, i);
    TargetsAreNotAliases(n);
    GetAt(obj, i);
  }

  // ---------------------------------------------------------------------------
  // Examples
  // ---------------------------------------------------------------------------

  /** A dragon record whose `tid_name` alias resolves: the alias field gives
      way to a `name` field appended after the others. */
  lemma TranslateResolvedExample()
    ensures TranslateFold([Prop("tid_dragon_1", "Drake")],
                          [Prop("hp", Other(100)), Prop("tid_name", Str("tid_dragon_1"))],
                          [Prop("hp", Other(100)), Prop("tid_name", Str("tid_dragon_1"))])
         == [Prop("hp", Other(100)), Prop("name", Str("Drake"))]
  {
    var data := [Prop("tid_dragon_1", "Drake")];
    var rec: Record<int> := [Prop("hp", Other(100)), Prop("tid_name", Str("tid_dragon_1"))];
    assert rec[..1] == [rec[0]] && rec[..2] == rec && rec[..1][..0] == [];
    ExampleStepPlainField(data, rec);
    ExampleStepAlias(data, rec);
  }

  lemma ExampleStepPlainField(data: Obj<string>, rec: Record<int>)
    ensures TranslateStep(data, rec, Prop("hp", Other(100))) == rec
  {
    CombinedLists();
  }

  lemma ExampleStepAlias(data: Obj<string>, rec: Record<int>)
    requires data == [Prop("tid_dragon_1", "Drake")]
    requires rec == [Prop("hp", Other(100)), Prop("tid_name", Str("tid_dragon_1"))]
    ensures TranslateStep(data, rec, rec[1]) == [Prop("hp", Other(100)), Prop("name", Str("Drake"))]
  {
    ExampleNameAlias();
    assert TranslateStep(data, rec, rec[1]) == ReplaceAlias(data, rec, rec[1], "name");
    ExampleResolve(data, rec[1]);
    ExampleDelete(rec);
  }

  /** `tid_name` is a name alias and no description alias. */
  lemma ExampleNameAlias()
    ensures "tid_name" in NameKeysToTranslate && "tid_name" !in DescriptionKeysToTranslate
  {
    CombinedLists();
  }

  lemma ExampleResolve(data: Obj<string>, f: Prop<Value<int>>)
    requires data == [Prop("tid_dragon_1", "Drake")]
    requires f == Prop("tid_name", Str("tid_dragon_1"))
    ensures Resolve(data, f.value) == Some("Drake")
  {
    GetAt(data, 0);
  }

  lemma ExampleDelete(rec: Record<int>)
    requires rec == [Prop("hp", Other(100)), Prop("tid_name", Str("tid_dragon_1"))]
    ensures Delete(Set(rec, "name", Str("Drake")), "tid_name") == [Prop("hp", Other(100)), Prop("name", Str("Drake"))]
  {
    var hp, alias, name := rec[0], rec[1], Prop("name", Str("Drake"));
    assert KeysOf(rec) == ["hp", "tid_name"];
    assert !HasKey(rec, "name");
    var named := Set(rec, "name", Str("Drake"));
    assert named == [hp, alias, name];
    assert DistinctKeys(named);
    assert Position(named, "tid_name") == 1;
    assert named[..1] + named[2..] == [hp, name];
  }

  /** A key whose text is empty counts as missing: the record is kept as is. */
  lemma TranslateEmptyTextExample()
    ensures TranslateFold([Prop("tid_dragon_1", "")],
                          [Prop("tidName", Str("tid_dragon_1"))],
                          [Prop("tidName", Str("tid_dragon_1"))])
         == [Prop("tidName", Value<int>.Str("tid_dragon_1"))]
  {
    var data := [Prop("tid_dragon_1", "")];
    var rec: Record<int> := [Prop("tidName", Str("tid_dragon_1"))];
    CombinedLists();
    assert rec[..0] == [];
    assert Get(data, "tid_dragon_1") == Some("") by { GetAt(data, 0); }
  }
}
