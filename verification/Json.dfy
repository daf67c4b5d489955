/** JSON documents of objects and scalars, and merging one into another as in section 2 of
    RFC 7396. */
module Json {
  import opened Common
  import opened Variables

  datatype Tree<V> = Null | Leaf(value: V) | Obj(fields: map<string, Tree<V>>)

  type Json = Tree<Value>

  function FieldsOf<V>(j: Tree<V>): map<string, Tree<V>> {
    if j.Obj? then j.fields else map[]
  }

  function FieldOrNull<V>(fields: map<string, Tree<V>>, key: string): Tree<V> {
    if key in fields then fields[key] else Null
  }

  /** nlohmann's merge_patch */
  function MergePatch<V>(target: Tree<V>, patch: Tree<V>): Tree<V>
    decreases patch
  {
    if !patch.Obj? then patch
    else
      var fields := FieldsOf(target);
      Obj(map key | key in fields.Keys + patch.fields.Keys && !(key in patch.fields && patch.fields[key].Null?) ::
            if key in patch.fields then MergePatch(FieldOrNull(fields, key), patch.fields[key]) else fields[key])
  }

  lemma MergedField<V>(target: Tree<V>, patch: Tree<V>, key: string)
    requires patch.Obj?
    ensures var m := MergePatch(target, patch);
            && m.Obj?
            && (key in m.fields <==>
                if key in patch.fields then !patch.fields[key].Null? else key in FieldsOf(target))
            && (key in m.fields ==>
                  m.fields[key] ==
                  if key in patch.fields then MergePatch(FieldOrNull(FieldsOf(target), key), patch.fields[key])
                  else FieldsOf(target)[key])
  {
  }

  /** Null means absence, and does not occur within a document. */
  ghost predicate NullFree(j: Json) {
    match j
    case Null => false
    case Leaf(_) => true
    case Obj(fields) => forall key :: key in fields ==> NullFree(fields[key])
  }

  lemma {:induction false} MergeIsNullFree(target: Json, patch: Json)
    requires target.Null? || NullFree(target)
    requires !patch.Null?
    ensures NullFree(MergePatch(target, patch))
    decreases patch
  {
    if patch.Obj? {
      var fields := FieldsOf(target);
      forall key | key in patch.fields && !patch.fields[key].Null?
        ensures NullFree(MergePatch(FieldOrNull(fields, key), patch.fields[key]))
      {
        MergeIsNullFree(FieldOrNull(fields, key), patch.fields[key]);
      }
    }
  }

  /** Merging the same patch again changes nothing. */
  lemma {:induction false} MergeIsIdempotent(target: Json, patch: Json)
    ensures MergePatch(MergePatch(target, patch), patch) == MergePatch(target, patch)
    decreases patch
  {
    if patch.Obj? {
      var once := MergePatch(target, patch);
      var twice := MergePatch(once, patch);
      forall key | key in patch.fields && !patch.fields[key].Null?
        ensures twice.fields[key] == once.fields[key]
      {
        MergeIsIdempotent(FieldOrNull(FieldsOf(target), key), patch.fields[key]);
      }
      assert twice.fields == once.fields;
    }
  }

  // ----- values at paths -----

  /** What a document holds at the end of a path of keys; null is the same as nothing. */
  function At<V>(j: Tree<V>, path: seq<string>): Option<Tree<V>> {
    if path == [] then (if j.Null? then None else Some(j))
    else if j.Obj? && path[0] in j.fields then At(j.fields[path[0]], path[1..])
    else None
  }

  /** The keys of the path lead to something in the document, be it null. */
  predicate HasPath<V>(j: Tree<V>, path: seq<string>) {
    path == [] || (j.Obj? && path[0] in j.fields && HasPath(j.fields[path[0]], path[1..]))
  }

  /** A patch decides about a path if it goes along all of it, or has something other than an
      object on the way. */
  predicate Decides(patch: Json, path: seq<string>) {
    !patch.Obj? || path == [] || (path[0] in patch.fields && Decides(patch.fields[path[0]], path[1..]))
  }

  /** After merging, a value stands at a path exactly if the patch puts it there, or, for the paths
      about which the patch does not decide, if it stood there before. */
  lemma {:induction false} MergedValues(target: Json, patch: Json, path: seq<string>, v: Value)
    ensures At(MergePatch(target, patch), path) == Some(Leaf(v)) <==>
            At(if Decides(patch, path) then patch else target, path) == Some(Leaf(v))
    decreases path
  {
    if patch.Obj? && path != [] {
      var key := path[0];
      if key in patch.fields && !patch.fields[key].Null? {
        MergedValues(FieldOrNull(FieldsOf(target), key), patch.fields[key], path[1..], v);
      }
    }
  }

  lemma {:induction false} ValuesAreDecided(patch: Json, path: seq<string>)
    requires At(patch, path).Some?
    ensures Decides(patch, path)
  {
    if patch.Obj? && path != [] {
      ValuesAreDecided(patch.fields[path[0]], path[1..]);
    }
  }

  /** A document that has absorbed a patch has all of the patch's values. */
  lemma AbsorbedValues(j: Json, patch: Json, path: seq<string>, v: Value)
    requires MergePatch(j, patch) == j && At(patch, path) == Some(Leaf(v))
    ensures At(j, path) == Some(Leaf(v))
  {
    ValuesAreDecided(patch, path);
    MergedValues(j, patch, path, v);
  }
}
