/** JSON Patch application as cJSON_Utils implements it, on the text of the patch. */
module Patch {
  import opened Option
  import opened CString
  import opened CJson
  import opened Pointer

  /** What a call leaves behind: its return code and the edited tree, or a null or
      out-of-range dereference. */
  datatype Outcome = Done(code: int, root: Json) | Crash

  /** The tree with the node at `loc` replaced. */
  function Put(t: Json, loc: Loc, n: Json): Json
    requires ValidLoc(t, loc)
    decreases |loc|
  {
    if loc == [] then n
    else
      var i := loc[0];
      var c := Put(Children(t)[i], loc[1..], n);
      match t
      case Array(items) => Array(items[i := c])
      case Object(ms) => Object(ms[i := Member(ms[i].name, c)])
  }

  // ----- library pieces

  /** strrchr(path, '/'), as an index; -1 for none. */
  function LastSlash(path: string): (i: int)
    ensures -1 <= i < |path| && (i >= 0 ==> path[i] == '/')
    ensures forall j :: i < j < |path| ==> path[j] != '/'
  {
    if path == "" then -1
    else if path[|path| - 1] == '/' then |path| - 1
    else LastSlash(path[..|path| - 1])
  }

  predicate IsSpace(c: char) {
    c == ' ' || '\t' <= c <= '\r'
  }

  function Atoi(s: string): int {
    if s != "" && IsSpace(s[0]) then Atoi(s[1..])
    else if s != "" && s[0] == '-' then -(ScanDigits(s[1..], 0).0 as int)
    else if s != "" && s[0] == '+' then ScanDigits(s[1..], 0).0
    else ScanDigits(s, 0).0
  }

  lemma {:induction false} AtoiSkips(w: string, s: string)
    requires forall i :: 0 <= i < |w| ==> w[i] == ' ' || 9 <= w[i] as int <= 13
    ensures Atoi(w + s) == Atoi(s)
  {
    if w == "" {
      assert w + s == s;
    } else {
      assert (w + s)[1..] == w[1..] + s;
      AtoiSkips(w[1..], s);
    }
  }

  /** White space, a sign, digits: the number they stand for, whatever follows; 0 when there
      are none. */
  lemma AtoiReads(w: string, ds: string, rest: string)
    requires forall i :: 0 <= i < |w| ==> w[i] == ' ' || 9 <= w[i] as int <= 13
    requires forall i :: 0 <= i < |ds| ==> IsDigit(ds[i])
    requires rest != "" ==> !IsDigit(rest[0])
    ensures ds != "" || rest == "" || (rest[0] !in "+- " && !(9 <= rest[0] as int <= 13)) ==>
              Atoi(w + (ds + rest)) == DigitsValue(ds)
    ensures Atoi(w + ("-" + (ds + rest))) == -(DigitsValue(ds) as int)
    ensures Atoi(w + ("+" + (ds + rest))) == DigitsValue(ds)
  {
    ScanValue(ds, rest);
    AtoiSkips(w, ds + rest);
    AtoiSkips(w, "-" + (ds + rest));
    AtoiSkips(w, "+" + (ds + rest));
    assert ("-" + (ds + rest))[1..] == ds + rest && ("+" + (ds + rest))[1..] == ds + rest;
  }

  /** The position `which` counts to: list walks treat negative numbers as 0. */
  function Position(which: int): nat {
    if which > 0 then which else 0
  }

  function InsertAt<T>(s: seq<T>, i: nat, x: T): seq<T> {
    if i < |s| then s[..i] + [x] + s[i..] else s + [x]
  }

  /** The new one stands at `i`, or at the end; the others keep their order. */
  lemma InsertedAt<T>(s: seq<T>, i: nat, x: T, j: nat)
    requires j < |s|
    ensures var r := InsertAt(s, i, x);
            |r| == |s| + 1 && r[if i < |s| then i else |s|] == x && r[if j < i then j else j + 1] == s[j]
  {
  }

  /** cJSON_GetObjectItem on a patch. */
  function Field(patch: Json, name: string): Option<Json> {
    if patch.Object? && FindMember(patch.members, name) < |patch.members|
    then Some(patch.members[FindMember(patch.members, name)].value) else None
  }

  // ----- edits of one container node

  datatype Detached = Detached(value: Option<Json>, node: Json)

  /** cJSON_DetachItemFromArray / FromObject by the last path segment. */
  function DetachChild(node: Json, child: string): Detached {
    match node
    case Array(items) =>
      var i := Position(Atoi(child));
      if i < |items| then Detached(Some(items[i]), Array(RemoveAt(items, i))) else Detached(None, node)
    case Object(ms) =>
      var i := FindMember(ms, child);
      if i < |ms| then Detached(Some(ms[i].value), Object(RemoveAt(ms, i))) else Detached(None, node)
    case _ => Detached(None, node)
  }

  /** Add `value` under the last path segment. */
  function AddChild(node: Json, child: string, value: Json): Json {
    match node
    case Array(items) =>
      if child == "-" then Array(items + [value]) else Array(InsertAt(items, Position(Atoi(child)), value))
    case Object(ms) => Object(DetachChild(node, child).node.members + [Member(child, value)])
    case _ => node
  }

  // ----- whole-tree edits

  /** The parent part and the decoded last segment of a path. */
  function SplitPath(path: string): Option<(string, string)> {
    var k := LastSlash(path);
    if k < 0 then None
    else match Decode(path[k + 1..]) case None => None case Some(child) => Some((path[..k], child))
  }

  datatype DetachOutcome = Took(value: Option<Json>, root: Json) | Fault

  /** cJSONUtils_PatchDetach. */
  function PatchDetach(root: Json, path: string): DetachOutcome {
    match SplitPath(path)
    case None => Fault
    case Some((parent, child)) =>
      match Get(root, parent)
      case None => Took(None, root)
      case Some(loc) =>
        GetValid(root, parent);
        var d := DetachChild(At(root, loc), child);
        Took(d.value, Put(root, loc, d.node))
  }

  /** The common tail of ApplyPatch: put `value` at `path`. */
  function AddAt(root: Json, path: string, value: Json): Outcome {
    match SplitPath(path)
    case None => Crash
    case Some((parent, child)) =>
      match Get(root, parent)
      case None => Done(9, root)
      case Some(loc) =>
        GetValid(root, parent);
        Done(0, Put(root, loc, AddChild(At(root, loc), child, value)))
  }

  function AddValue(root: Json, path: string, value: Option<Json>): Outcome {
    match value case None => Done(7, root) case Some(v) => AddAt(root, path, v)
  }

  /** cJSONUtils_ApplyPatch for every operation but "test". */
  function Apply(root: Json, patch: Json): Outcome {
    var op, path := Field(patch, "op"), Field(patch, "path");
    if op.None? || path.None? then Done(2, root)
    else if !op.value.String? then Crash
    else if op.value.valuestring !in {"add", "remove", "replace", "move", "copy"} then Done(3, root)
    else if !path.value.String? then Crash
    else
      var p := path.value.valuestring;
      var o := op.value.valuestring;
      if o == "remove" then
        var d := PatchDetach(root, p);
        if d.Fault? then Crash else Done(0, d.root)
      else if o == "replace" then
        var d := PatchDetach(root, p);
        if d.Fault? then Crash else AddValue(d.root, p, Field(patch, "value"))
      else if o == "add" then AddValue(root, p, Field(patch, "value"))
      else
        match Field(patch, "from")
        case None => Done(4, root)
        case Some(from) =>
          if !from.String? then Crash
          else if o == "move" then
            var d := PatchDetach(root, from.valuestring);
            if d.Fault? then Crash
            else if d.value.None? then Done(5, d.root)
            else AddAt(d.root, p, d.value.value)
          else
            match Get(root, from.valuestring)
            case None => Done(5, root)
            case Some(loc) =>
              GetValid(root, from.valuestring);
              AddAt(root, p, At(root, loc))
  }

  /** Locations that Get returns are nodes of the tree. */
  lemma {:induction false} GetValid(t: Json, p: string)
    ensures Get(t, p).Some? ==> ValidLoc(t, Get(t, p).value)
    decreases t
  {
    if p != "" && p[0] == '/' {
      match t
      case Array(items) =>
        var (which, rest) := ScanDigits(p[1..], 0);
        if which < |items| { GetValid(items[which], rest); }
      case Object(ms) =>
        var i := FirstMatch(ms, p[1..]);
        if i < |ms| { GetValid(ms[i].value, SkipToSlash(p[1..])); }
      case _ =>
    }
  }
}
