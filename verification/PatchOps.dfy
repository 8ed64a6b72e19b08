/** The patch engine as it runs: a document edited in place. */
module PatchOps {
  import opened Option
  import opened CString
  import opened CJson
  import opened Pointer
  import PointerOps
  import opened Patch
  import opened Compare
  import opened Marks
  import opened PatchRun
  import opened PatchOrder

  // ----- edits of one container

  /** The walk of cJSON_DetachItemFromArray and cJSON_InsertItemInArray to a position. */
  method WalkTo(which: int, n: nat) returns (c: nat)
    ensures c == if Position(which) < n then Position(which) else n
  {
    c := 0;
    var left := which;
    while c < n && left > 0
      invariant 0 <= c <= n && left == which - c && (which <= 0 ==> c == 0) && (which > 0 ==> left >= 0)
    {
      c, left := c + 1, left - 1;
    }
  }

  /** The search of cJSON_DetachItemFromObject. */
  method FindName(ms: seq<Member>, name: string) returns (c: nat)
    ensures c == FindMember(ms, name)
  {
    c := 0;
    while c < |ms| && StrCaseCmp(ms[c].name, name) != 0
      invariant 0 <= c <= |ms| && forall j :: 0 <= j < c ==> StrCaseCmp(ms[j].name, name) != 0
    {
      c := c + 1;
    }
  }

  method DetachFrom(node: Json, child: string) returns (value: Option<Json>, left: Json)
    ensures Detached(value, left) == DetachChild(node, child)
  {
    value, left := None, node;
    if node.Array? {
      var c := WalkTo(Atoi(child), |node.items|);
      if c < |node.items| {
        value, left := Some(node.items[c]), Array(node.items[..c] + node.items[c + 1..]);
      }
    } else if node.Object? {
      var c := FindName(node.members, child);
      if c < |node.members| {
        value, left := Some(node.members[c].value), Object(node.members[..c] + node.members[c + 1..]);
      }
    }
  }

  method AddTo(node: Json, child: string, value: Json) returns (left: Json)
    ensures left == AddChild(node, child, value)
  {
    left := node;
    if node.Array? {
      if child == "-" {
        left := Array(node.items + [value]);
      } else {
        var c := WalkTo(Atoi(child), |node.items|);
        left := Array(if c < |node.items| then node.items[..c] + [value] + node.items[c..] else node.items + [value]);
      }
    } else if node.Object? {
      var dropped;
      dropped, left := DetachFrom(node, child);
      left := Object(left.members + [Member(child, value)]);
    }
  }

  /** The last segment of a path behind the slash at `k`, unescaped in a copy. */
  method LastSegment(path: string, k: nat) returns (child: string)
    requires k < |path| && NulFree(path) && Decode(path[k + 1..]).Some?
    ensures Some(child) == Decode(path[k + 1..])
  {
    var text := path[k + 1..];
    var buf := new char[|text| + 1](i => if 0 <= i < |text| then text[i] else '\0');
    assert buf[..|text|] == text;
    var m := PointerOps.InplaceDecode(buf, |text|);
    child := buf[..m];
  }

  class Document {
    var root: Json
    ghost var marks: Marks   // its nodes, and the `prev` of the first of each list
    ghost var epoch: nat     // how many trees have been made
    ghost var leaked: seq<Marks>  // trees lost without being freed

    ghost function Value(): Doc
      reads this
    {
      Doc(root, marks, epoch, leaked)
    }

    ghost predicate Valid()
      reads this
    {
      Value().Valid()
    }

    /** A document as parsed or duplicated. */
    constructor (root: Json)
      ensures Valid() && Value() == FreshDoc(root)
    {
      FreshFits(root, 0);
      this.root := root;
      this.marks := Fresh(root, 0);
      this.epoch, this.leaked := 1, [];
    }

    /** A document whose lists have been sorted since. */
    constructor Sorted(root: Json, ghost marks: Marks)
      requires Fits(root, marks)
      ensures Valid() && Value() == Doc(root, marks, 1, [])
    {
      this.root := root;
      this.marks := marks;
      this.epoch, this.leaked := 1, [];
    }

    /** cJSONUtils_PatchDetach: takes the node at `path` out of its parent. */
    method Detach(path: string) returns (value: Option<Json>)
      requires Valid() && NulFree(path) && RemoveStep(Value(), path).Left?
      modifies this
      ensures Valid() && Left(0, Value()) == RemoveStep(old(Value()), path)
      ensures value == PatchDetach(old(root), path).value
    {
      DetachFits(Value(), path);
      ghost var left := MarksLeft(Value(), path);
      var k := LastSlash(path);
      var child := LastSegment(path, k);
      var parent := PointerOps.GetPointer(root, path[..k]);
      if parent.None? {
        return None;
      }
      GetValid(root, path[..k]);
      var node;
      value, node := DetachFrom(At(root, parent.value), child);
      root := Put(root, parent.value, node);
      marks := left;
    }

    /** The tail of ApplyPatch: puts `value`, with its marks, under `path`. */
    method Add(path: string, value: Json, ghost v: Marks) returns (code: int)
      requires Valid() && NulFree(path) && Fits(value, v) && AddStep(Value(), path, value, v).Left?
      modifies this
      ensures Valid() && Left(code, Value()) == AddStep(old(Value()), path, value, v)
    {
      AddFits(Value(), path, value, v);
      ghost var added := AddStep(Value(), path, value, v).doc;
      var k := LastSlash(path);
      var child := LastSegment(path, k);
      var parent := PointerOps.GetPointer(root, path[..k]);
      leaked := added.leaked;
      if parent.None? {
        return 9;
      }
      GetValid(root, path[..k]);
      var node := AddTo(At(root, parent.value), child, value);
      root := Put(root, parent.value, node);
      marks := added.marks;
      return 0;
    }

    /** The "test" operation: compares, sorting members of the compared node on the way. */
    method Test(patch: Json) returns (code: int)
      requires Valid() && WellFormed(patch) && IsTest(patch) && TestStep(Value(), patch).Left?
      modifies this
      ensures Valid() && Left(code, Value()) == TestStep(old(Value()), patch)
    {
      TestFits(Value(), patch);
      ghost var swept := TestStep(Value(), patch).doc.marks;
      var p := Field(patch, "path").value.valuestring;
      FieldWellFormed(patch, "path");
      var loc := PointerOps.GetPointer(root, p);
      GetValid(root, p);
      var n, v;
      code, n, v := CompareTrees(At(root, loc.value), Field(patch, "value").value);
      root := Put(root, loc.value, n);
      marks := swept;
    }

    /** Adds a value that is made now. */
    method AddNew(path: string, value: Json) returns (code: int)
      requires Valid() && NulFree(path) && AddFresh(Value(), path, value).Left?
      modifies this
      ensures Valid() && Left(code, Value()) == AddFresh(old(Value()), path, value)
    {
      FreshFits(value, epoch);
      ghost var v := Fresh(value, epoch);
      epoch := epoch + 1;
      code := Add(path, value, v);
    }

    /** "move": takes a node out and puts it elsewhere, with the marks it has. */
    method Move(from: string, path: string) returns (code: int)
      requires Valid() && NulFree(from) && NulFree(path) && MoveStep(Value(), from, path).Left?
      modifies this
      ensures Valid() && Left(code, Value()) == MoveStep(old(Value()), from, path)
    {
      DetachFits(Value(), from);
      ghost var taken := MarksTaken(Value(), from);
      var value := Detach(from);
      if value.None? {
        return 5;
      }
      code := Add(path, value.value, taken);
    }

    /** "copy": duplicates a node. */
    method Copy(from: string, path: string) returns (code: int)
      requires Valid() && NulFree(from) && NulFree(path) && CopyStep(Value(), from, path).Left?
      modifies this
      ensures Valid() && Left(code, Value()) == CopyStep(old(Value()), from, path)
    {
      var loc := PointerOps.GetPointer(root, from);
      if loc.None? {
        return 5;
      }
      GetValid(root, from);
      code := AddNew(path, At(root, loc.value));
    }

    /** "add" and the second half of "replace". */
    method AddValue(path: string, value: Option<Json>) returns (code: int)
      requires Valid() && NulFree(path) && AddValueStep(Value(), path, value).Left?
      modifies this
      ensures Valid() && Left(code, Value()) == AddValueStep(old(Value()), path, value)
    {
      if value.None? {
        return 7;
      }
      code := AddNew(path, value.value);
    }

    /** cJSONUtils_ApplyPatch for the operations that edit. */
    method ApplyEdit(patch: Json) returns (code: int)
      requires Valid() && WellFormed(patch) && EditStep(Value(), patch).Left?
      modifies this
      ensures Valid() && Left(code, Value()) == EditStep(old(Value()), patch)
    {
      var op, path := Field(patch, "op"), Field(patch, "path");
      if op.None? || path.None? {
        return 2;
      }
      var o := op.value.valuestring;
      if o != "add" && o != "remove" && o != "replace" && o != "move" && o != "copy" {
        return 3;
      }
      var p := path.value.valuestring;
      FieldWellFormed(patch, "path");
      if o == "move" || o == "copy" {
        var from := Field(patch, "from");
        FieldWellFormed(patch, "from");
        if from.None? {
          return 4;
        }
        if o == "move" {
          code := Move(from.value.valuestring, p);
        } else {
          code := Copy(from.value.valuestring, p);
        }
        return;
      }
      if o == "remove" || o == "replace" {
        var dropped := Detach(p);
        if o == "remove" {
          return 0;
        }
      }
      code := AddValue(p, Field(patch, "value"));
    }

    /** cJSONUtils_ApplyPatch, for every patch that neither faults nor does damage. */
    method ApplyPatch(patch: Json) returns (code: int)
      requires Valid() && WellFormed(patch) && RunPatch(Value(), patch).Left?
      modifies this
      ensures Valid() && Left(code, Value()) == RunPatch(old(Value()), patch)
    {
      if IsTest(patch) {
        code := Test(patch);
      } else {
        code := ApplyEdit(patch);
      }
    }

    /** cJSONUtils_ApplyPatches: in order, stopping at the first code that is not 0. */
    method ApplyPatches(patches: seq<Json>) returns (code: int)
      requires Valid() && RunAll(Value(), patches).Left?
      requires forall i :: 0 <= i < |patches| ==> WellFormed(patches[i])
      modifies this
      ensures Valid() && Left(code, Value()) == RunAll(old(Value()), patches)
    {
      var i := 0;
      assert patches[0..] == patches;
      while i < |patches|
        invariant 0 <= i <= |patches| && Valid() && RunAll(Value(), patches[i..]) == RunAll(old(Value()), patches)
      {
        assert patches[i..][0] == patches[i] && patches[i..][1..] == patches[i + 1..];
        code := ApplyPatch(patches[i]);
        if code != 0 {
          return;
        }
        i := i + 1;
      }
      return 0;
    }
  }
}
