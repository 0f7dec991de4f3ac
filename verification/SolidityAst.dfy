/** The facts about a Solidity syntax tree that the trackers consume
    (src/solidity_ast.rs). Building them from solc's JSON is not part of this model. */
module SolidityAst {
  import opened Basics

  datatype SourceRange = SourceRange(offset: I32, length: I32, fileIndex: I32) {
    /** The upper end is an `i32` sum, so it wraps in a release build. */
    predicate ContainsOffset(o: I32) {
      offset <= o < WrapI32(offset + length)
    }
  }

  datatype VarDecl = VarDecl(
    name: string,
    typeName: string,
    memoryResident: bool,
    src: SourceRange,
    declarationOffset: I32,
    statementRange: Option<SourceRange>)
  {
    predicate InStatement(o: I32) {
      statementRange.Some? && statementRange.value.ContainsOffset(o)
    }

    /** The offset lies in one of the three places by which the trackers recognise a declaration. */
    predicate Covers(o: I32) {
      declarationOffset == o || src.ContainsOffset(o) || InStatement(o)
    }
  }

  datatype FunctionDef = FunctionDef(name: string, parameters: seq<VarDecl>)

  /** The first declaration that satisfies `p`: one `for v in vars` search loop of the trackers. */
  function FirstVar(vars: seq<VarDecl>, p: VarDecl -> bool): (r: Option<VarDecl>)
    ensures r.None? <==> forall v :: v in vars ==> !p(v)
    ensures r.Some? ==> exists i ::
            0 <= i < |vars| && r.value == vars[i] && p(vars[i])
            && forall j :: 0 <= j < i ==> !p(vars[j])
  {
    if vars == [] then None
    else if p(vars[0]) then
      assert vars[0] in vars;
      Some(vars[0])
    else
      var r := FirstVar(vars[1..], p);
      assert forall v :: v in vars <==> v == vars[0] || v in vars[1..];
      assert r.Some? ==> exists i ::
        0 <= i < |vars| && r.value == vars[i] && p(vars[i])
        && forall j :: 0 <= j < i ==> !p(vars[j]) by {
        if r.Some? {
          var k :| 0 <= k < |vars[1..]| && r.value == vars[1..][k] && p(vars[1..][k])
            && forall j :: 0 <= j < k ==> !p(vars[1..][j]);
          assert vars[k + 1] == vars[1..][k];
          forall j | 0 <= j < k + 1 ensures !p(vars[j]) {
            if j > 0 { assert vars[j] == vars[1..][j - 1]; }
          }
        }
      }
      r
  }

  lemma {:induction false} FirstVarIsFirst(vars: seq<VarDecl>, p: VarDecl -> bool, i: nat)
    requires i < |vars|
    ensures p(vars[i]) && (forall j :: 0 <= j < i ==> !p(vars[j])) ==> FirstVar(vars, p) == Some(vars[i])
    ensures (forall v :: v in vars ==> !p(v)) ==> FirstVar(vars, p) == None
  {
    assert vars[i] in vars;
  }

  /** A range contains exactly its `length` offsets from its start on, and none when its end exceeds 32 bits or
      its length is negative; a length so negative that the end falls below 32 bits wraps to a high end. */
  lemma RangeIsOffsets(r: SourceRange, o: I32)
    ensures 0 <= r.length ==>
              (r.ContainsOffset(o) <==> r.offset + r.length <= I32_MAX && 0 <= o - r.offset <= r.length - 1)
    ensures r.length < 0 && I32_MIN <= r.offset + r.length ==> !r.ContainsOffset(o)
    ensures r.offset + r.length < I32_MIN ==>
              (r.ContainsOffset(o) <==> r.offset <= o < r.offset + r.length + U32_BOUND)
  {
    var sum := r.offset + r.length;
    assert WrapI32(sum) == if sum > I32_MAX then sum - U32_BOUND else if sum < I32_MIN then sum + U32_BOUND else sum;
  }
}
