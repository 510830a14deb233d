/**
 * The operation model shared by both realizations (src/operations.ts): a
 * tagged union of the four edits, and their one-line text rendering.
 */
module Operations {
  import opened Keys
  import opened Values
  import opened MapTree

  /**
   * An edit at an absolute path. `Set` is what the raw-value realization
   * emits, `SetLeaf`/`SetTree` what the node-object realization emits.
   */
  datatype Operation =
    | Set(path: Path, value: Val)
    | SetLeaf(path: Path, value: Val)
    | SetTree(path: Path, entries: seq<Entry>)
    | Remove(path: Path)

  /** The operation's tag, as written in its `type` field. */
  function Tag(op: Operation): (r: string)
    ensures |r| >= 3
  {
    match op
    case Set(_, _) => "set"
    case SetLeaf(_, _) => "set-leaf"
    case SetTree(_, _) => "set-tree"
    case Remove(_) => "remove"
  }

  /** The built-in `JSON.stringify`, for each kind of thing an operation carries. */
  datatype Encoder = Encoder(key: Key -> string, value: Val -> string, entries: seq<Entry> -> string)

  /** `formatPath`: every key as `[` + its encoding + `]`, concatenated. */
  function FormatPath(enc: Encoder, keys: Path): (r: string)
    ensures keys == [] ==> r == ""
    ensures keys != [] ==> |r| >= 2 && r[0] == '[' && r[|r| - 1] == ']'
  {
    if keys == [] then ""
    else FormatPath(enc, keys[..|keys| - 1]) + "[" + enc.key(keys[|keys| - 1]) + "]"
  }

  /** Rendering a path is rendering its parts one after the other. */
  lemma {:induction false} FormatPathAppend(enc: Encoder, p: Path, q: Path)
    ensures FormatPath(enc, p + q) == FormatPath(enc, p) + FormatPath(enc, q)
    decreases |q|
  {
    if q == [] {
      assert p + q == p;
    } else {
      var q' := q[..|q| - 1];
      assert (p + q)[..|p + q| - 1] == p + q';
      FormatPathAppend(enc, p, q');
    }
  }

  /**
   * `formatOperation`: `tag(path)` for a removal and `tag(path, payload)` for
   * the three set variants, with the payload encoded.
   */
  function FormatOperation(enc: Encoder, op: Operation): (r: string)
    ensures |r| > |Tag(op)| + 1 && r[..|Tag(op)| + 1] == Tag(op) + "("
    ensures r[|r| - 1] == ')'
    ensures op.Remove? ==> r == Tag(op) + "(" + FormatPath(enc, op.path) + ")"
    ensures op.Set? || op.SetLeaf? ==> r == Tag(op) + "(" + FormatPath(enc, op.path) + ", " + enc.value(op.value) + ")"
    ensures op.SetTree? ==> r == Tag(op) + "(" + FormatPath(enc, op.path) + ", " + enc.entries(op.entries) + ")"
  {
    var head := Tag(op) + "(" + FormatPath(enc, op.path);
    match op
    case Remove(_) => head + ")"
    case Set(_, v) => head + ", " + enc.value(v) + ")"
    case SetLeaf(_, v) => head + ", " + enc.value(v) + ")"
    case SetTree(_, es) => head + ", " + enc.entries(es) + ")"
  }

  /** Operations of different kinds never render the same. */
  lemma FormatDistinguishesKinds(enc: Encoder, a: Operation, b: Operation)
    requires Tag(a) != Tag(b)
    ensures FormatOperation(enc, a) != FormatOperation(enc, b)
  {
    var ra := FormatOperation(enc, a);
    var rb := FormatOperation(enc, b);
    var ta := Tag(a) + "(";
    var tb := Tag(b) + "(";
    assert |ta| >= 4 && |tb| >= 4;
    var j := TagsDiffer(a, b);
    assert ra[j] == ra[..|ta|][j] == ta[j];
    assert rb[j] == rb[..|tb|][j] == tb[j];
  }

  /** A position at which the two opening heads `tag(` differ. */
  function TagsDiffer(a: Operation, b: Operation): (j: nat)
    requires Tag(a) != Tag(b)
    ensures j < |Tag(a) + "("| && j < |Tag(b) + "("| && (Tag(a) + "(")[j] != (Tag(b) + "(")[j]
  {
    if a.Remove? || b.Remove? then 0
    else if a.Set? || b.Set? then 3
    else 4
  }
}
