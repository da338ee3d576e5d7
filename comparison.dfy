/** The difference between two snapshots of a translation table, as
    `compare` reports it: new keys, keys whose text changed, and deleted
    keys. */
module Comparison {
  import opened JsObject
  import opened Sequences

  datatype NewField = NewField(key: string, value: string)

  /** The text before and after an edit (`old` and `new` in the source). */
  datatype EditedValues = EditedValues(oldValue: string, newValue: string)

  datatype EditedField = EditedField(key: string, values: EditedValues)

  datatype DeletedField = DeletedField(key: string, value: string)

  datatype ComparisonResult = ComparisonResult(
    newFields: seq<NewField>,
    editedFields: seq<EditedField>,
    deletedFields: seq<DeletedField>)

  function NewKeys(r: seq<NewField>): (ks: seq<string>)
    ensures |ks| == |r| && forall i :: 0 <= i < |r| ==> ks[i] == r[i].key
  {
    seq(|r|, i requires 0 <= i < |r| => r[i].key)
  }

  lemma NewKeysAppend(a: seq<NewField>, b: seq<NewField>)
    ensures NewKeys(a + b) == NewKeys(a) + NewKeys(b)
  {
    assert forall i :: 0 <= i < |a + b| ==> (a + b)[i].key == (NewKeys(a) + NewKeys(b))[i];
  }

  function EditedKeys(r: seq<EditedField>): (ks: seq<string>)
    ensures |ks| == |r| && forall i :: 0 <= i < |r| ==> ks[i] == r[i].key
  {
    seq(|r|, i requires 0 <= i < |r| => r[i].key)
  }

  lemma EditedKeysAppend(a: seq<EditedField>, b: seq<EditedField>)
    ensures EditedKeys(a + b) == EditedKeys(a) + EditedKeys(b)
  {
    assert forall i :: 0 <= i < |a + b| ==> (a + b)[i].key == (EditedKeys(a) + EditedKeys(b))[i];
  }

  function DeletedKeys(r: seq<DeletedField>): (ks: seq<string>)
    ensures |ks| == |r| && forall i :: 0 <= i < |r| ==> ks[i] == r[i].key
  {
    seq(|r|, i requires 0 <= i < |r| => r[i].key)
  }

  lemma DeletedKeysAppend(a: seq<DeletedField>, b: seq<DeletedField>)
    ensures DeletedKeys(a + b) == DeletedKeys(a) + DeletedKeys(b)
  {
    assert forall i :: 0 <= i < |a + b| ==> (a + b)[i].key == (DeletedKeys(a) + DeletedKeys(b))[i];
  }

  /** The order step shared by the three lists: the keys gathered from the
      first entries stay in order when the last entry's key is added or not. */
  lemma KeysStep(init: Obj<string>, p: Prop<string>, before: seq<string>, added: seq<string>)
    requires added == [] || added == [p.key]
    ensures DistinctKeys(init + [p]) && (DistinctKeys(init) ==> InOrder(init, before)) ==>
              InOrder(init + [p], before + added)
  {
    DistinctInit(init + [p]);
    assert (init + [p])[..|init|] == init;
    InOrderSnoc(init, p, before);
    if added == [] {
      assert before + added == before;
    }
  }

  /** The entries of `newObj`, in its order, whose key `oldObj` lacks. */
  function NewFieldsOf(oldObj: Obj<string>, newObj: Obj<string>): (r: seq<NewField>)
    ensures forall f :: f in r <==> Prop(f.key, f.value) in newObj && !HasKey(oldObj, f.key)
    decreases |newObj|
  {
    if newObj == [] then []
    else
      var init, p := newObj[..|newObj| - 1], newObj[|newObj| - 1];
      assert newObj == init + [p];
      var before := NewFieldsOf(oldObj, init);
      var added := if HasKey(oldObj, p.key) then [] else [NewField(p.key, p.value)];
      before + added
  }

  /** The entries of `newObj`, in its order, whose key `oldObj` has with a
      different text, paired with that old text. */
  function EditedFieldsOf(oldObj: Obj<string>, newObj: Obj<string>): (r: seq<EditedField>)
    ensures forall f :: f in r <==>
      && Prop(f.key, f.values.newValue) in newObj
      && Get(oldObj, f.key) == Some(f.values.oldValue)
      && f.values.oldValue != f.values.newValue
    decreases |newObj|
  {
    if newObj == [] then []
    else
      var init, p := newObj[..|newObj| - 1], newObj[|newObj| - 1];
      assert newObj == init + [p];
      var before := EditedFieldsOf(oldObj, init);
      var added := match Get(oldObj, p.key)
        case Some(v) => if v != p.value then [EditedField(p.key, EditedValues(v, p.value))] else []
        case None => [];
      before + added
  }

  /** The entries of `oldObj`, in its order, whose key `newObj` lacks. */
  function DeletedFieldsOf(oldObj: Obj<string>, newObj: Obj<string>): (r: seq<DeletedField>)
    ensures forall f :: f in r <==> Prop(f.key, f.value) in oldObj && !HasKey(newObj, f.key)
    decreases |oldObj|
  {
    if oldObj == [] then []
    else
      var init, p := oldObj[..|oldObj| - 1], oldObj[|oldObj| - 1];
      assert oldObj == init + [p];
      var before := DeletedFieldsOf(init, newObj);
      var added := if HasKey(newObj, p.key) then [] else [DeletedField(p.key, p.value)];
      before + added
  }

  /** The new fields follow the new snapshot's order, one entry per key. */
  lemma {:induction false} NewFieldsInOrder(oldObj: Obj<string>, newObj: Obj<string>)
    ensures DistinctKeys(newObj) ==> InOrder(newObj, NewKeys(NewFieldsOf(oldObj, newObj)))
    decreases |newObj|
  {
    if newObj != [] {
      var init, p := newObj[..|newObj| - 1], newObj[|newObj| - 1];
      assert newObj == init + [p];
      NewFieldsInOrder(oldObj, init);
      var before := NewFieldsOf(oldObj, init);
      var added := if HasKey(oldObj, p.key) then [] else [NewField(p.key, p.value)];
      assert NewFieldsOf(oldObj, newObj) == before + added;
      NewKeysAppend(before, added);
      KeysStep(init, p, NewKeys(before), NewKeys(added));
    }
  }

  /** The edited fields follow the new snapshot's order, one entry per
      key. */
  lemma {:induction false} EditedFieldsInOrder(oldObj: Obj<string>, newObj: Obj<string>)
    ensures DistinctKeys(newObj) ==> InOrder(newObj, EditedKeys(EditedFieldsOf(oldObj, newObj)))
    decreases |newObj|
  {
    if newObj != [] {
      var init, p := newObj[..|newObj| - 1], newObj[|newObj| - 1];
      assert newObj == init + [p];
      EditedFieldsInOrder(oldObj, init);
      var before := EditedFieldsOf(oldObj, init);
      var added := match Get(oldObj, p.key)
        case Some(v) => if v != p.value then [EditedField(p.key, EditedValues(v, p.value))] else []
        case None => [];
      assert EditedFieldsOf(oldObj, newObj) == before + added;
      EditedKeysAppend(before, added);
      KeysStep(init, p, EditedKeys(before), EditedKeys(added));
    }
  }

  /** The deleted fields follow the old snapshot's order, one entry per
      key. */
  lemma {:induction false} DeletedFieldsInOrder(oldObj: Obj<string>, newObj: Obj<string>)
    ensures DistinctKeys(oldObj) ==> InOrder(oldObj, DeletedKeys(DeletedFieldsOf(oldObj, newObj)))
    decreases |oldObj|
  {
    if oldObj != [] {
      var init, p := oldObj[..|oldObj| - 1], oldObj[|oldObj| - 1];
      assert oldObj == init + [p];
      DeletedFieldsInOrder(init, newObj);
      var before := DeletedFieldsOf(init, newObj);
      var added := if HasKey(newObj, p.key) then [] else [DeletedField(p.key, p.value)];
      assert DeletedFieldsOf(oldObj, newObj) == before + added;
      DeletedKeysAppend(before, added);
      KeysStep(init, p, DeletedKeys(before), DeletedKeys(added));
    }
  }

  /** One more entry of the new snapshot adds at most one new field. */
  lemma NewFieldsOfSnoc(oldObj: Obj<string>, init: Obj<string>, p: Prop<string>)
    ensures NewFieldsOf(oldObj, init + [p])
         == NewFieldsOf(oldObj, init) + if HasKey(oldObj, p.key) then [] else [NewField(p.key, p.value)]
  {
    assert (init + [p])[..|init|] == init;
  }

  /** One more entry of the new snapshot adds at most one edited field. */
  lemma EditedFieldsOfSnoc(oldObj: Obj<string>, init: Obj<string>, p: Prop<string>)
    ensures EditedFieldsOf(oldObj, init + [p])
         == EditedFieldsOf(oldObj, init)
            + match Get(oldObj, p.key)
              case Some(v) => if v != p.value then [EditedField(p.key, EditedValues(v, p.value))] else []
              case None => []
  {
    assert (init + [p])[..|init|] == init;
  }

  /** One more entry of the old snapshot adds at most one deleted field. */
  lemma DeletedFieldsOfSnoc(init: Obj<string>, p: Prop<string>, newObj: Obj<string>)
    ensures DeletedFieldsOf(init + [p], newObj)
         == DeletedFieldsOf(init, newObj) + if HasKey(newObj, p.key) then [] else [DeletedField(p.key, p.value)]
  {
    assert (init + [p])[..|init|] == init;
  }

  /** `NewFieldsOfSnoc` for a prefix of the new snapshot, as a loop over it
      uses it. */
  lemma NewFieldsOfStep(oldObj: Obj<string>, newObj: Obj<string>, i: int)
    requires 0 <= i < |newObj|
    ensures NewFieldsOf(oldObj, newObj[..i + 1])
         == NewFieldsOf(oldObj, newObj[..i])
            + if HasKey(oldObj, newObj[i].key) then [] else [NewField(newObj[i].key, newObj[i].value)]
  {
    assert newObj[..i + 1][..i] == newObj[..i];
  }

  /** `EditedFieldsOfSnoc` for a prefix of the new snapshot. */
  lemma EditedFieldsOfStep(oldObj: Obj<string>, newObj: Obj<string>, i: int)
    requires 0 <= i < |newObj|
    ensures EditedFieldsOf(oldObj, newObj[..i + 1])
         == EditedFieldsOf(oldObj, newObj[..i])
            + match Get(oldObj, newObj[i].key)
              case Some(v) => if v != newObj[i].value then [EditedField(newObj[i].key, EditedValues(v, newObj[i].value))] else []
              case None => []
  {
    assert newObj[..i + 1][..i] == newObj[..i];
  }

  /** `DeletedFieldsOfSnoc` for a prefix of the old snapshot. */
  lemma DeletedFieldsOfStep(oldObj: Obj<string>, newObj: Obj<string>, i: int)
    requires 0 <= i < |oldObj|
    ensures DeletedFieldsOf(oldObj[..i + 1], newObj)
         == DeletedFieldsOf(oldObj[..i], newObj)
            + if HasKey(newObj, oldObj[i].key) then [] else [DeletedField(oldObj[i].key, oldObj[i].value)]
  {
    assert oldObj[..i + 1][..i] == oldObj[..i];
  }

  /** The new fields of a concatenated snapshot are those of its first part
      followed by those of its second: the list keeps the snapshot's order. */
  lemma {:induction false} NewFieldsOfAppend(oldObj: Obj<string>, x: Obj<string>, y: Obj<string>)
    ensures NewFieldsOf(oldObj, x + y) == NewFieldsOf(oldObj, x) + NewFieldsOf(oldObj, y)
    decreases |y|
  {
    if y == [] {
      assert x + y == x;
    } else {
      var init, p := y[..|y| - 1], y[|y| - 1];
      assert y == init + [p] && x + y == (x + init) + [p];
      NewFieldsOfAppend(oldObj, x, init);
      NewFieldsOfSnoc(oldObj, x + init, p);
      NewFieldsOfSnoc(oldObj, init, p);
      ConcatAssoc(NewFieldsOf(oldObj, x), NewFieldsOf(oldObj, init),
                  if HasKey(oldObj, p.key) then [] else [NewField(p.key, p.value)]);
    }
  }

  /** The edited fields of a concatenated snapshot are those of its first
      part followed by those of its second. */
  lemma {:induction false} EditedFieldsOfAppend(oldObj: Obj<string>, x: Obj<string>, y: Obj<string>)
    ensures EditedFieldsOf(oldObj, x + y) == EditedFieldsOf(oldObj, x) + EditedFieldsOf(oldObj, y)
    decreases |y|
  {
    if y == [] {
      assert x + y == x;
    } else {
      var init, p := y[..|y| - 1], y[|y| - 1];
      assert y == init + [p] && x + y == (x + init) + [p];
      EditedFieldsOfAppend(oldObj, x, init);
      EditedFieldsOfSnoc(oldObj, x + init, p);
      EditedFieldsOfSnoc(oldObj, init, p);
      ConcatAssoc(EditedFieldsOf(oldObj, x), EditedFieldsOf(oldObj, init),
                  match Get(oldObj, p.key)
                  case Some(v) => if v != p.value then [EditedField(p.key, EditedValues(v, p.value))] else []
                  case None => []);
    }
  }

  /** The deleted fields of a concatenated old snapshot are those of its
      first part followed by those of its second. */
  lemma {:induction false} DeletedFieldsOfAppend(x: Obj<string>, y: Obj<string>, newObj: Obj<string>)
    ensures DeletedFieldsOf(x + y, newObj) == DeletedFieldsOf(x, newObj) + DeletedFieldsOf(y, newObj)
    decreases |y|
  {
    if y == [] {
      assert x + y == x;
    } else {
      var init, p := y[..|y| - 1], y[|y| - 1];
      assert y == init + [p] && x + y == (x + init) + [p];
      DeletedFieldsOfAppend(x, init, newObj);
      DeletedFieldsOfSnoc(x + init, p, newObj);
      DeletedFieldsOfSnoc(init, p, newObj);
      ConcatAssoc(DeletedFieldsOf(x, newObj), DeletedFieldsOf(init, newObj),
                  if HasKey(newObj, p.key) then [] else [DeletedField(p.key, p.value)]);
    }
  }

  /** The three lists `compare` fills for an old and a new snapshot. */
  function ComparisonOf(oldObj: Obj<string>, newObj: Obj<string>): ComparisonResult
  {
    ComparisonResult(NewFieldsOf(oldObj, newObj), EditedFieldsOf(oldObj, newObj), DeletedFieldsOf(oldObj, newObj))
  }

  predicate InNew(r: ComparisonResult, k: string)
  {
    exists f :: f in r.newFields && f.key == k
  }

  predicate InEdited(r: ComparisonResult, k: string)
  {
    exists f :: f in r.editedFields && f.key == k
  }

  predicate InDeleted(r: ComparisonResult, k: string)
  {
    exists f :: f in r.deletedFields && f.key == k
  }

  /** Every key of either snapshot lands in exactly the list its presence
      and its texts call for, so in at most one of them; a key present in
      both with the same text is in none. */
  lemma ComparisonPartition(oldObj: Obj<string>, newObj: Obj<string>, k: string)
    requires DistinctKeys(oldObj) && DistinctKeys(newObj)
    ensures InNew(ComparisonOf(oldObj, newObj), k) <==> HasKey(newObj, k) && !HasKey(oldObj, k)
    ensures InEdited(ComparisonOf(oldObj, newObj), k) <==>
              HasKey(oldObj, k) && HasKey(newObj, k) && Get(oldObj, k) != Get(newObj, k)
    ensures InDeleted(ComparisonOf(oldObj, newObj), k) <==> HasKey(oldObj, k) && !HasKey(newObj, k)
    ensures !(InNew(ComparisonOf(oldObj, newObj), k) && InEdited(ComparisonOf(oldObj, newObj), k))
    ensures !(InNew(ComparisonOf(oldObj, newObj), k) && InDeleted(ComparisonOf(oldObj, newObj), k))
    ensures !(InEdited(ComparisonOf(oldObj, newObj), k) && InDeleted(ComparisonOf(oldObj, newObj), k))
  {
    NewPart(oldObj, newObj, k);
    EditedPart(oldObj, newObj, k);
    DeletedPart(oldObj, newObj, k);
  }

  lemma NewPart(oldObj: Obj<string>, newObj: Obj<string>, k: string)
    ensures InNew(ComparisonOf(oldObj, newObj), k) <==> HasKey(newObj, k) && !HasKey(oldObj, k)
  {
    var r := ComparisonOf(oldObj, newObj);
    if HasKey(newObj, k) && !HasKey(oldObj, k) {
      var i := FirstIndex(KeysOf(newObj), k);
      assert newObj[i] == Prop(k, newObj[i].value);
      assert NewField(k, newObj[i].value) in r.newFields;
    }
    if InNew(r, k) {
      var f :| f in r.newFields && f.key == k;
      var j :| 0 <= j < |newObj| && newObj[j] == Prop(f.key, f.value);
      assert KeysOf(newObj)[j] == k;
    }
  }

  lemma EditedPart(oldObj: Obj<string>, newObj: Obj<string>, k: string)
    requires DistinctKeys(newObj)
    ensures InEdited(ComparisonOf(oldObj, newObj), k) <==>
              HasKey(oldObj, k) && HasKey(newObj, k) && Get(oldObj, k) != Get(newObj, k)
  {
    var r := ComparisonOf(oldObj, newObj);
    if HasKey(oldObj, k) && HasKey(newObj, k) && Get(oldObj, k) != Get(newObj, k) {
      var i := FirstIndex(KeysOf(newObj), k);
      GetAt(newObj, i);
      assert EditedField(k, EditedValues(Get(oldObj, k).value, newObj[i].value)) in r.editedFields;
    }
    if InEdited(r, k) {
      var f :| f in r.editedFields && f.key == k;
      var j :| 0 <= j < |newObj| && newObj[j] == Prop(k, f.values.newValue);
      GetAt(newObj, j);
    }
  }

  lemma DeletedPart(oldObj: Obj<string>, newObj: Obj<string>, k: string)
    ensures InDeleted(ComparisonOf(oldObj, newObj), k) <==> HasKey(oldObj, k) && !HasKey(newObj, k)
  {
    var r := ComparisonOf(oldObj, newObj);
    if HasKey(oldObj, k) && !HasKey(newObj, k) {
      var i := FirstIndex(KeysOf(oldObj), k);
      assert oldObj[i] == Prop(k, oldObj[i].value);
      assert DeletedField(k, oldObj[i].value) in r.deletedFields;
    }
    if InDeleted(r, k) {
      var f :| f in r.deletedFields && f.key == k;
      var j :| 0 <= j < |oldObj| && oldObj[j] == Prop(f.key, f.value);
      assert KeysOf(oldObj)[j] == k;
    }
  }

  lemma EmptyWhenNoMember<T>(s: seq<T>)
    ensures (forall x :: x !in s) ==> s == []
  {
    if s != [] {
      assert s[0] in s;
    }
  }

  /** Comparing a snapshot with itself reports nothing. */
  lemma CompareWithItself(obj: Obj<string>)
    requires DistinctKeys(obj)
    ensures ComparisonOf(obj, obj) == ComparisonResult([], [], [])
  {
    forall j | 0 <= j < |obj| ensures Get(obj, obj[j].key) == Some(obj[j].value) {
      GetAt(obj, j);
    }
    var r := ComparisonOf(obj, obj);
    EmptyWhenNoMember(r.newFields);
    EmptyWhenNoMember(r.editedFields);
    EmptyWhenNoMember(r.deletedFields);
  }

  /** Swapping the snapshots turns new keys into deleted ones and back;
      the edited keys stay the same. */
  lemma CompareSwapped(oldObj: Obj<string>, newObj: Obj<string>, k: string)
    requires DistinctKeys(oldObj) && DistinctKeys(newObj)
    ensures InNew(ComparisonOf(oldObj, newObj), k) <==> InDeleted(ComparisonOf(newObj, oldObj), k)
    ensures InDeleted(ComparisonOf(oldObj, newObj), k) <==> InNew(ComparisonOf(newObj, oldObj), k)
    ensures InEdited(ComparisonOf(oldObj, newObj), k) <==> InEdited(ComparisonOf(newObj, oldObj), k)
  {
    ComparisonPartition(oldObj, newObj, k);
    ComparisonPartition(newObj, oldObj, k);
  }
}
