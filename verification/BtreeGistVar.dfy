/**
 Variable-length keys of btree_gist (contrib/btree_gist/btree_utils_var.c), for the types
 whose order is byte order.  An inner key is a pair of bounds; when the type allows it
 (`trnc`), both bounds are cut two bytes after their common prefix, so the stored upper bound
 may lie below values that the key stands for.  The module proves that searches lose nothing as long as no
 split of an inner page outgrows one of its members, and says exactly when it does.
 */
module BtreeGistVar {
  import opened Bytes

  /** `GBT_VARKEY_R`: a leaf entry has the same string twice. */
  datatype Key = Key(lower: bytes, upper: bytes)

  datatype Strategy = Less | LessEqual | Equal | GreaterEqual | Greater | NotEqual | Unknown

  // ----- operations -----

  /** `gbt_var_node_cp_len` for single-byte data. */
  method NodeCommonPrefix(node: Key) returns (i: nat)
    ensures i == CommonPrefix(node.lower, node.upper)
  {
    var ml := if |node.lower| < |node.upper| then |node.lower| else |node.upper|;
    i := 0;
    while i < ml
      invariant 0 <= i <= ml
      invariant node.lower[..i] == node.upper[..i]
    {
      if node.lower[i] != node.upper[i] {
        CommonPrefixUnique(node.lower, node.upper, i);
        return;
      }
      i := i + 1;
    }
    CommonPrefixUnique(node.lower, node.upper, ml);
  }

  function Cut(s: bytes, n: nat): bytes { if |s| <= n then s else s[..n] }

  /** `gbt_var_node_truncate`: keeps one byte more than the length it is given. */
  function Truncate(node: Key, cpfLength: nat): Key {
    Key(Cut(node.lower, cpfLength + 1), Cut(node.upper, cpfLength + 1))
  }

  /** `gbt_var_bin_union`, once an accumulated key exists. */
  function BinUnion(u: Key, e: Key): Key {
    Key(if Compare(u.lower, e.lower) > 0 then e.lower else u.lower,
        if Compare(u.upper, e.upper) < 0 then e.upper else u.upper)
  }

  function Merged(keys: seq<Key>): Key
    requires keys != []
  {
    if |keys| == 1 then keys[0] else BinUnion(Merged(keys[..|keys| - 1]), keys[|keys| - 1])
  }

  function UnionKey(keys: seq<Key>, trnc: bool): Key
    requires keys != []
  {
    var m := Merged(keys);
    if trnc then Truncate(m, CommonPrefix(m.lower, m.upper) + 1) else m
  }

  /** The loop over `gbt_var_bin_union` that `gbt_var_union` and `gbt_var_picksplit` share. */
  method MergeAll(keys: seq<Key>) returns (out: Key)
    requires keys != []
    ensures out == Merged(keys)
  {
    out := keys[0];
    var i := 1;
    while i < |keys|
      invariant 1 <= i <= |keys|
      invariant out == Merged(keys[..i])
    {
      assert keys[..i + 1][..i] == keys[..i];
      out := BinUnion(out, keys[i]);
      i := i + 1;
    }
    assert keys[..i] == keys;
  }

  /** `gbt_var_union`. */
  method Union(keys: seq<Key>, trnc: bool) returns (out: Key)
    requires keys != []
    ensures out == UnionKey(keys, trnc)
  {
    out := MergeAll(keys);
    if trnc {
      var plen := NodeCommonPrefix(out);
      out := Truncate(out, plen + 1);
    }
  }

  /** `gbt_var_node_pf_match`. */
  predicate PrefixMatch(key: Key, query: bytes, trnc: bool) {
    trnc && (key.lower <= query || key.upper <= query)
  }

  /** `gbt_var_consistent`. */
  predicate Consistent(key: Key, query: bytes, strategy: Strategy, isLeaf: bool, trnc: bool) {
    match strategy
    case LessEqual =>
      if isLeaf then Compare(query, key.lower) >= 0
      else Compare(query, key.lower) >= 0 || PrefixMatch(key, query, trnc)
    case Less =>
      if isLeaf then Compare(query, key.lower) > 0
      else Compare(query, key.lower) >= 0 || PrefixMatch(key, query, trnc)
    case Equal =>
      if isLeaf then Compare(query, key.lower) == 0
      else (Compare(key.lower, query) <= 0 && Compare(query, key.upper) <= 0) || PrefixMatch(key, query, trnc)
    case Greater =>
      if isLeaf then Compare(query, key.upper) < 0
      else Compare(query, key.upper) <= 0 || PrefixMatch(key, query, trnc)
    case GreaterEqual =>
      if isLeaf then Compare(query, key.upper) <= 0
      else Compare(query, key.upper) <= 0 || PrefixMatch(key, query, trnc)
    case NotEqual => !(Compare(query, key.lower) == 0 && Compare(query, key.upper) == 0)
    case Unknown => false
  }

  /** What each strategy asks of an indexed value. */
  predicate Satisfies(v: bytes, strategy: Strategy, query: bytes) {
    match strategy
    case Less => Compare(v, query) < 0
    case LessEqual => Compare(v, query) <= 0
    case Equal => v == query
    case GreaterEqual => Compare(v, query) >= 0
    case Greater => Compare(v, query) > 0
    case NotEqual => v != query
    case Unknown => false
  }

  // ----- the invariant -----

  /** The bound was possibly cut: it reaches two bytes past the common prefix. */
  predicate MayBeCut(k: Key) {
    |k.upper| >= CommonPrefix(k.lower, k.upper) + 2
  }

  /**
   What an inner key promises about a value below it.  A value above the stored upper bound is
   allowed only when the bound is a prefix of it and may have been cut.
   */
  predicate Covers(k: Key, v: bytes, trnc: bool) {
    && Le(k.lower, k.upper)
    && Le(k.lower, v)
    && (Le(v, k.upper) || (trnc && k.upper <= v && MayBeCut(k)))
  }

  lemma ValueCoversItself(v: bytes, trnc: bool)
    ensures Covers(Key(v, v), v, trnc)
  {
    CompareAntisymmetric(v, v);
  }

  lemma BinUnionEncloses(u: Key, e: Key)
    ensures var r := BinUnion(u, e);
      Le(r.lower, u.lower) && Le(r.lower, e.lower) && Le(u.upper, r.upper) && Le(e.upper, r.upper)
  {
    CompareAntisymmetric(u.lower, e.lower);
    CompareAntisymmetric(u.upper, e.upper);
    CompareAntisymmetric(u.lower, u.lower);
    CompareAntisymmetric(u.upper, u.upper);
    CompareAntisymmetric(e.lower, e.lower);
    CompareAntisymmetric(e.upper, e.upper);
  }

  /** Each accumulated bound is that of some member. */
  lemma {:induction false} MergedIsAttained(keys: seq<Key>) returns (i: nat, j: nat)
    requires keys != []
    ensures i < |keys| && Merged(keys).lower == keys[i].lower
    ensures j < |keys| && Merged(keys).upper == keys[j].upper
  {
    hide Compare;
    var n := |keys| - 1;
    i, j := 0, 0;
    if n > 0 {
      var m := Merged(keys[..n]);
      i, j := MergedIsAttained(keys[..n]);
      if Compare(m.lower, keys[n].lower) > 0 { i := n; }
      if Compare(m.upper, keys[n].upper) < 0 { j := n; }
    }
  }

  lemma {:induction false} MergedEncloses(keys: seq<Key>, i: nat)
    requires i < |keys|
    ensures Le(Merged(keys).lower, keys[i].lower)
    ensures Le(keys[i].upper, Merged(keys).upper)
  {
    if |keys| == 1 {
      CompareAntisymmetric(keys[0].lower, keys[0].lower);
      CompareAntisymmetric(keys[0].upper, keys[0].upper);
    } else {
      var n := |keys| - 1;
      var m, r := Merged(keys[..n]), Merged(keys);
      BinUnionEncloses(m, keys[n]);
      if i < n {
        MergedEncloses(keys[..n], i);
        LeTransitive(r.lower, m.lower, keys[i].lower);
        LeTransitive(keys[i].upper, m.upper, r.upper);
      }
    }
  }

  /** Cutting no earlier than two bytes past the common prefix keeps the prefix and the order of the bounds. */
  lemma TruncateKeepsPrefix(m: Key, cpf: nat)
    requires cpf >= CommonPrefix(m.lower, m.upper) + 1
    ensures var t := Truncate(m, cpf);
      CommonPrefix(t.lower, t.upper) == CommonPrefix(m.lower, m.upper) && (Le(m.lower, m.upper) ==> Le(t.lower, t.upper))
  {
    var t := Truncate(m, cpf);
    CommonPrefixUnique(t.lower, t.upper, CommonPrefix(m.lower, m.upper));
  }

  /** A value up to the merged upper bound stays covered by every late enough cut. */
  lemma TruncateCoversExact(m: Key, v: bytes, cpf: nat)
    requires cpf >= CommonPrefix(m.lower, m.upper) + 1
    requires Le(m.lower, v) && Le(v, m.upper)
    ensures Covers(Truncate(m, cpf), v, true)
  {
    hide Compare;
    LeTransitive(m.lower, v, m.upper);
    TruncateKeepsPrefix(m, cpf);
    if |m.lower| > cpf + 1 { CutIsLe(m.lower, cpf + 1, v); }
    if |m.upper| > cpf + 1 { CutUpper(v, m.upper, cpf + 1); }
  }

  /** Enlarging a key cannot move the end of the common prefix to the right past a lower bound that already differs. */
  lemma PrefixShrinks(lower: bytes, child: Key, upper: bytes)
    requires Le(lower, child.lower) && Le(child.lower, child.upper) && child.upper <= upper
    requires CommonPrefix(child.lower, child.upper) < |child.upper|
    ensures CommonPrefix(lower, upper) <= CommonPrefix(child.lower, child.upper)
  {
    var c := CommonPrefix(child.lower, child.upper);
    assert forall i :: 0 <= i < |child.upper| ==> upper[i] == child.upper[i];
    assert CommonPrefix(lower, child.lower) >= 0;
  }

  /** The heart of the matter: one step of `gbt_var_union` keeps covering what a member covered. */
  lemma UnionCovers(keys: seq<Key>, i: nat, v: bytes, trnc: bool)
    requires i < |keys| && Covers(keys[i], v, trnc)
    ensures Covers(UnionKey(keys, trnc), v, trnc)
  {
    hide Compare, Merged, Truncate;
    var m, k := Merged(keys), keys[i];
    MergedEncloses(keys, i);
    LeTransitive(m.lower, k.lower, v);
    LeTransitive(m.lower, k.lower, k.upper);
    LeTransitive(m.lower, k.upper, m.upper);
    if Le(v, k.upper) {
      LeTransitive(v, k.upper, m.upper);
      if trnc { TruncateCoversExact(m, v, CommonPrefix(m.lower, m.upper) + 1); }
    } else if Le(v, m.upper) {
      TruncateCoversExact(m, v, CommonPrefix(m.lower, m.upper) + 1);
    } else {
      ExtensionStaysPrefix(m, k, v);
    }
  }

  lemma ExtensionStaysPrefix(m: Key, k: Key, v: bytes)
    requires Covers(k, v, true) && k.upper <= v && MayBeCut(k)
    requires Le(m.lower, k.lower) && Le(k.upper, m.upper) && Le(m.lower, v) && Le(m.lower, m.upper)
    requires !Le(v, m.upper)
    ensures Covers(Truncate(m, CommonPrefix(m.lower, m.upper) + 1), v, true)
  {
    var c := CommonPrefix(m.lower, m.upper);
    CutUpperIsPrefix(m, k, v);
    TruncateKeepsPrefix(m, c + 1);
    if |m.lower| > c + 2 { CutIsLe(m.lower, c + 2, v); }
  }

  /** The merged bound extends the member's, and is cut no later than the member's ends. */
  lemma CutUpperIsPrefix(m: Key, k: Key, v: bytes)
    requires k.upper <= v && MayBeCut(k) && Le(k.lower, k.upper)
    requires Le(m.lower, k.lower) && Le(k.upper, m.upper) && !Le(v, m.upper)
    ensures var c := CommonPrefix(m.lower, m.upper); |m.upper| >= c + 2 && Cut(m.upper, c + 2) <= v
  {
    var c := CommonPrefix(m.lower, m.upper);
    CompareAntisymmetric(v, m.upper);
    BetweenPrefixAndExtension(k.upper, m.upper, v);
    PrefixShrinks(m.lower, k, m.upper);
    assert Cut(m.upper, c + 2) == k.upper[..c + 2];
  }

  /** Between the bounds, or an extension of one of them. */
  predicate Near(k: Key, v: bytes) {
    (Le(k.lower, v) && Le(v, k.upper)) || k.lower <= v || k.upper <= v
  }

  /** A key is let through for nothing: there is always a value near it that the query asks for, or that is the query. */
  lemma ConsistentHasReason(k: Key, query: bytes, strategy: Strategy, trnc: bool) returns (v: bytes)
    requires Le(k.lower, k.upper) && Consistent(k, query, strategy, false, trnc)
    ensures Near(k, v) && (Satisfies(v, strategy, query) || v == query)
  {
    CompareAntisymmetric(query, k.lower);
    CompareAntisymmetric(query, k.upper);
    CompareAntisymmetric(k.lower, k.lower);
    CompareAntisymmetric(k.upper, k.upper);
    if (strategy.Less? || strategy.LessEqual?) && Le(k.lower, query) {
      v := k.lower;
    } else if (strategy.Greater? || strategy.GreaterEqual?) && Le(query, k.upper) {
      v := k.upper;
    } else if strategy.NotEqual? {
      v := if k.lower != query then k.lower else k.upper;
    } else {
      v := query;
    }
  }

  /** A covering key never turns a search away. */
  lemma CoversIsConsistent(k: Key, v: bytes, strategy: Strategy, query: bytes, trnc: bool)
    requires Covers(k, v, trnc) && Satisfies(v, strategy, query)
    ensures Consistent(k, query, strategy, false, trnc)
  {
    CompareAntisymmetric(v, query);
    CompareAntisymmetric(query, k.lower);
    CompareAntisymmetric(query, k.upper);
    if strategy.Less? || strategy.LessEqual? {
      LeTransitive(k.lower, v, query);
    } else if strategy.Greater? || strategy.GreaterEqual? {
      if Le(v, k.upper) {
        LeTransitive(query, v, k.upper);
      } else if !Le(query, k.upper) {
        BetweenPrefixAndExtension(k.upper, query, v);
      }
    } else if strategy.NotEqual? {
      if k.lower == k.upper {
        CommonPrefixUnique(k.lower, k.upper, |k.lower|);
        CompareAntisymmetric(k.lower, v);
      }
    }
  }

  lemma LeafIsExact(v: bytes, strategy: Strategy, query: bytes, trnc: bool)
    ensures Consistent(Key(v, v), query, strategy, true, trnc) <==> Satisfies(v, strategy, query)
  {
    CompareAntisymmetric(v, query);
  }

  // ----- page splits -----

  /**
   The entry numbers in some order.  What is said below of the sides' keys does not depend on which it is.
   */
  ghost predicate Permutation(order: seq<nat>, n: nat) {
    && multiset(order) == multiset(seq(n, (i: nat) => i))
    && |order| == n
    && forall i :: 0 <= i < |order| ==> order[i] < n
  }

  function Pick(keys: seq<Key>, which: seq<nat>): (side: seq<Key>)
    requires forall i :: 0 <= i < |which| ==> which[i] < |keys|
    ensures |side| == |which| && forall i :: 0 <= i < |which| ==> side[i] == keys[which[i]]
  {
    seq(|which|, i requires 0 <= i < |which| => keys[which[i]])
  }

  function KeyPrefix(k: Key): nat { CommonPrefix(k.lower, k.upper) }

  /** Both sides are cut at the longer of the two common prefixes. */
  function SplitCut(left: Key, right: Key): nat {
    (if KeyPrefix(left) > KeyPrefix(right) then KeyPrefix(left) else KeyPrefix(right)) + 1
  }

  function SideKey(keys: seq<Key>, cut: nat): Key
    requires keys != []
  {
    Truncate(Merged(keys), cut)
  }

  method CutSides(left: Key, right: Key) returns (leftKey: Key, rightKey: Key)
    ensures leftKey == Truncate(left, SplitCut(left, right))
    ensures rightKey == Truncate(right, SplitCut(left, right))
  {
    var ll := NodeCommonPrefix(left);
    var lr := NodeCommonPrefix(right);
    ll := if ll > lr then ll else lr;
    ll := ll + 1;
    leftKey, rightKey := Truncate(left, ll), Truncate(right, ll);
  }

  /** `gbt_vsrt_cmp`: by the lower bounds, then by the upper bounds. */
  function VsrtCompare(a: Key, b: Key): int {
    var res := Compare(a.lower, b.lower);
    if res == 0 then Compare(a.upper, b.upper) else res
  }

  /** What `qsort_arg` with `gbt_vsrt_cmp` leaves. */
  predicate Ascending(arr: seq<Key>) {
    forall i, j :: 0 <= i < j < |arr| ==> VsrtCompare(arr[i], arr[j]) <= 0
  }

  predicate NoneAbove(keys: seq<Key>, left: seq<nat>, right: seq<nat>) {
    forall l, r :: l in left && r in right ==> l < |keys| && r < |keys| && VsrtCompare(keys[l], keys[r]) <= 0
  }

  lemma HalvesAscend(keys: seq<Key>, order: seq<nat>, half: nat)
    requires Permutation(order, |keys|) && Ascending(Pick(keys, order)) && half <= |order|
    ensures NoneAbove(keys, order[..half], order[half..])
  {
    hide VsrtCompare;
    var arr := Pick(keys, order);
    forall l, r | l in order[..half] && r in order[half..]
      ensures l < |keys| && r < |keys| && VsrtCompare(keys[l], keys[r]) <= 0
    {
      var i :| 0 <= i < half && order[i] == l;
      var j :| half <= j < |order| && order[j] == r;
      assert arr[i] == keys[l] && arr[j] == keys[r];
    }
  }

  /** `gbt_var_picksplit` after sorting: the lower half goes left. */
  method PickSplit(keys: seq<Key>, order: seq<nat>, trnc: bool)
    returns (left: seq<nat>, right: seq<nat>, leftKey: Key, rightKey: Key)
    requires |keys| >= 2 && Permutation(order, |keys|) && Ascending(Pick(keys, order))
    ensures left + right == order && |left| == |keys| / 2 && left != [] && right != []
    ensures NoneAbove(keys, left, right)
    ensures var arr := Pick(keys, order);
      var l, r := Merged(arr[..|left|]), Merged(arr[|left|..]);
      && (trnc ==> leftKey == SideKey(arr[..|left|], SplitCut(l, r)) && rightKey == SideKey(arr[|left|..], SplitCut(l, r)))
      && (!trnc ==> leftKey == l && rightKey == r)
      && SplitCut(l, r) > KeyPrefix(l) && SplitCut(l, r) > KeyPrefix(r)
  {
    hide NoneAbove, CommonPrefix;
    var half := |keys| / 2;
    var arr := Pick(keys, order);
    left, right := order[..half], order[half..];
    HalvesAscend(keys, order, half);
    hide Ascending, Permutation, Pick;
    leftKey := MergeAll(arr[..half]);
    rightKey := MergeAll(arr[half..]);
    if trnc { leftKey, rightKey := CutSides(leftKey, rightKey); }
  }

  /** Some byte of `s` from position `n` on could be exceeded. */
  predicate HasRoom(s: bytes, n: nat) {
    exists j :: n <= j < |s| && s[j] != 255
  }

  /** A member whose cut upper bound is a proper prefix of the side's bound, with room above the latter. */
  predicate Outgrown(member: Key, side: Key) {
    && MayBeCut(member)
    && member.upper <= side.upper && member.upper != side.upper
    && HasRoom(side.upper, |member.upper|)
  }

  /** It may hold values that neither bound of the side leads to, unless all of them extend the lower bound. */
  predicate Endangered(member: Key, side: Key) {
    Outgrown(member, side) && !(side.lower <= member.upper)
  }

  // ----- what a side covers -----

  /** A side covers what a member covers, unless the member is outgrown. */
  lemma SideCovers(keys: seq<Key>, i: nat, v: bytes, cut: nat)
    requires i < |keys| && Covers(keys[i], v, true) && cut > KeyPrefix(Merged(keys))
    requires !Outgrown(keys[i], SideKey(keys, cut))
    ensures Covers(SideKey(keys, cut), v, true)
  {
    hide Compare, Merged;
    var m, k := Merged(keys), keys[i];
    MergedEncloses(keys, i);
    LeTransitive(m.lower, k.lower, v);
    LeTransitive(m.lower, k.lower, k.upper);
    LeTransitive(m.lower, k.upper, m.upper);
    if Le(v, k.upper) {
      LeTransitive(v, k.upper, m.upper);
      TruncateCoversExact(m, v, cut);
    } else if Le(v, m.upper) {
      TruncateCoversExact(m, v, cut);
    } else {
      ExtensionStaysCovered(m, k, v, cut);
    }
  }

  lemma ExtensionStaysCovered(m: Key, k: Key, v: bytes, cut: nat)
    requires Covers(k, v, true) && k.upper <= v && MayBeCut(k)
    requires Le(m.lower, k.lower) && Le(k.upper, m.upper) && Le(m.lower, v) && Le(m.lower, m.upper)
    requires !Le(v, m.upper) && cut > KeyPrefix(m) && !Outgrown(k, Truncate(m, cut))
    ensures Covers(Truncate(m, cut), v, true)
  {
    hide Compare;
    var side := Truncate(m, cut);
    CutUpperIsPrefix(m, k, v);
    TruncateKeepsPrefix(m, cut);
    if |m.lower| > cut + 1 { CutIsLe(m.lower, cut + 1, v); }
    CompareAntisymmetric(v, m.upper);
    BetweenPrefixAndExtension(k.upper, m.upper, v);
    if |side.upper| > |k.upper| {
      assert v[..|k.upper|] == k.upper == side.upper[..|k.upper|];
      AboveNothing(v, side.upper, |k.upper|);
    } else {
      assert side.upper <= k.upper;
    }
  }

  ghost predicate SideCoversAll(keys: seq<Key>, side: Key) {
    forall k, v :: k in keys && Covers(k, v, true) ==> Covers(side, v, true)
  }

  /** The invariant that later unions and splits rest on survives a split exactly when no member is outgrown. */
  lemma SideCoversExact(keys: seq<Key>, cut: nat)
    requires keys != [] && (forall k <- keys :: Le(k.lower, k.upper)) && cut > KeyPrefix(Merged(keys))
    ensures SideCoversAll(keys, SideKey(keys, cut)) <==> forall k <- keys :: !Outgrown(k, SideKey(keys, cut))
  {
    hide Compare, Merged, Truncate, Outgrown, Covers;
    if forall k <- keys :: !Outgrown(k, SideKey(keys, cut)) {
      forall k, v | k in keys && Covers(k, v, true) ensures Covers(SideKey(keys, cut), v, true) {
        var i :| 0 <= i < |keys| && keys[i] == k;
        SideCovers(keys, i, v, cut);
      }
    } else {
      var k :| k in keys && Outgrown(k, SideKey(keys, cut));
      var v := OutgrownIsUncovered(k, SideKey(keys, cut));
    }
  }

  lemma OutgrownIsUncovered(k: Key, side: Key) returns (v: bytes)
    requires Le(k.lower, k.upper) && Outgrown(k, side)
    ensures Covers(k, v, true) && !Covers(side, v, true)
  {
    hide Compare;
    v := PassedExtension(k.upper, side.upper);
    PrefixIsLe(k.upper, v);
    LeTransitive(k.lower, k.upper, v);
  }

  // ----- what a side lets through -----

  /** The side's key leads every search to every value that a member may hold and that satisfies it. */
  ghost predicate SideLosesNothing(keys: seq<Key>, side: Key) {
    forall k, v, strategy, query :: k in keys && Covers(k, v, true) && Satisfies(v, strategy, query) ==>
      Consistent(side, query, strategy, false, true)
  }

  lemma MemberIsKept(keys: seq<Key>, i: nat, v: bytes, strategy: Strategy, query: bytes, cut: nat)
    requires i < |keys| && Covers(keys[i], v, true) && Satisfies(v, strategy, query)
    requires cut > KeyPrefix(Merged(keys)) && !Endangered(keys[i], SideKey(keys, cut))
    ensures Consistent(SideKey(keys, cut), query, strategy, false, true)
  {
    hide Compare, Merged, Truncate, Endangered;
    var m, k, side := Merged(keys), keys[i], SideKey(keys, cut);
    MergedEncloses(keys, i);
    TruncatedBounds(m, cut);
    BoundsKeep(m, k, side, v);
    LeTransitive(m.lower, k.lower, k.upper);
    LeTransitive(m.lower, k.upper, m.upper);
    TruncateKeepsPrefix(m, cut);
    if strategy.NotEqual? {
      NotEqualIsConsistent(m, k, v, query, cut);
    } else {
      BoundsAreConsistent(side, v, strategy, query);
    }
  }

  lemma TruncatedBounds(m: Key, cut: nat)
    ensures Truncate(m, cut).lower <= m.lower && Truncate(m, cut).upper <= m.upper
  {
  }

  /** Bounds around a value, or a bound that it extends, let through what asks for it by comparison. */
  lemma BoundsAreConsistent(side: Key, v: bytes, strategy: Strategy, query: bytes)
    requires Le(side.lower, side.upper) && Le(side.lower, v)
    requires Le(v, side.upper) || side.upper <= v || side.lower <= v
    requires Satisfies(v, strategy, query) && !strategy.NotEqual?
    ensures Consistent(side, query, strategy, false, true)
  {
    hide Compare;
    CompareAntisymmetric(v, query);
    CompareAntisymmetric(query, side.lower);
    CompareAntisymmetric(query, side.upper);
    if strategy.Less? || strategy.LessEqual? {
      LeTransitive(side.lower, v, query);
    } else if strategy.Greater? || strategy.GreaterEqual? {
      if Le(v, side.upper) {
        LeTransitive(query, v, side.upper);
      } else if !Le(query, side.upper) {
        LeTransitive(side.lower, side.upper, query);
        if side.upper <= v {
          BetweenPrefixAndExtension(side.upper, query, v);
        } else {
          BetweenPrefixAndExtension(side.lower, query, v);
        }
      }
    }
  }

  /** Bounds that coincide after a late enough cut coincided before, so that the members hold one value only. */
  lemma NotEqualIsConsistent(m: Key, k: Key, v: bytes, query: bytes, cut: nat)
    requires Le(m.lower, k.lower) && Le(k.upper, m.upper) && Covers(k, v, true) && v != query && cut > KeyPrefix(m)
    ensures Consistent(Truncate(m, cut), query, NotEqual, false, true)
  {
    hide Compare;
    var side := Truncate(m, cut);
    CompareAntisymmetric(query, side.lower);
    CompareAntisymmetric(query, side.upper);
    if side.lower == side.upper {
      SameAfterCut(m, cut);
      LeTransitive(k.lower, k.upper, m.upper);
      LeTransitive(m.lower, k.lower, k.upper);
      CompareAntisymmetric(m.lower, k.lower);
      CompareAntisymmetric(m.lower, k.upper);
      CommonPrefixUnique(k.lower, k.upper, |k.lower|);
      CompareAntisymmetric(k.lower, v);
    }
  }

  lemma SameAfterCut(m: Key, cut: nat)
    requires cut > KeyPrefix(m) && Truncate(m, cut).lower == Truncate(m, cut).upper
    ensures m.lower == m.upper == Truncate(m, cut).lower
  {
    var side := Truncate(m, cut);
    TruncateKeepsPrefix(m, cut);
    CommonPrefixUnique(side.lower, side.upper, |side.lower|);
  }

  lemma BoundsKeep(m: Key, k: Key, side: Key, v: bytes)
    requires side.lower <= m.lower && side.upper <= m.upper
    requires Le(m.lower, k.lower) && Le(k.upper, m.upper) && Covers(k, v, true)
    requires !Endangered(k, side)
    ensures Le(side.lower, v) && (Le(v, side.upper) || side.upper <= v || side.lower <= v)
  {
    assert side.upper == m.upper[..|side.upper|];
    PrefixIsLe(side.lower, m.lower);
    LeTransitive(m.lower, k.lower, v);
    LeTransitive(side.lower, m.lower, v);
    if Le(v, k.upper) {
      LeTransitive(v, k.upper, m.upper);
      CutUpper(v, m.upper, |side.upper|);
    } else if side.lower <= k.upper {
      assert side.lower <= v;
    } else {
      CutUpper(k.upper, m.upper, |side.upper|);
      ExtensionIsKept(k, side.upper, v);
    }
  }

  /** An extension of a bound that ends before, or differs from, the side's bound stays on its near side. */
  lemma ExtensionIsKept(k: Key, upper: bytes, v: bytes)
    requires k.upper <= v && (Le(k.upper, upper) || upper <= k.upper)
    requires k.upper <= upper && k.upper != upper ==> !HasRoom(upper, |k.upper|)
    ensures Le(v, upper) || upper <= v
  {
    var c := CommonPrefix(k.upper, upper);
    assert forall j :: 0 <= j < |k.upper| ==> v[j] == k.upper[j];
    if upper <= k.upper {
      assert upper <= v;
    } else if c < |k.upper| {
      CommonPrefixUnique(v, upper, c);
    } else {
      AboveNothing(v, upper, |k.upper|);
    }
  }

  /** When the rest of a bound is all 255, no extension of its beginning passes it without extending it. */
  lemma AboveNothing(v: bytes, upper: bytes, n: nat)
    requires n <= |v| && n <= |upper| && v[..n] == upper[..n] && !HasRoom(upper, n)
    ensures Le(v, upper) || upper <= v
  {
    var c := CommonPrefix(v, upper);
    assert forall j :: 0 <= j < n ==> v[j] == v[..n][j] == upper[..n][j] == upper[j];
    assert c >= n;
  }

  lemma EndangeredIsLost(keys: seq<Key>, i: nat, cut: nat) returns (v: bytes)
    requires i < |keys| && Le(keys[i].lower, keys[i].upper)
    requires Endangered(keys[i], SideKey(keys, cut))
    ensures Covers(keys[i], v, true) && !Consistent(SideKey(keys, cut), v, Equal, false, true)
  {
    hide Compare, Merged;
    var m, k, side := Merged(keys), keys[i], SideKey(keys, cut);
    MergedEncloses(keys, i);
    LeTransitive(m.lower, k.lower, k.upper);
    CutIsLe(m.lower, |side.lower|, k.upper);
    v := PassedExtension(k.upper, side.upper);
    PrefixIsLe(k.upper, v);
    LeTransitive(k.lower, k.upper, v);
    NotAPrefix(side.lower, k.upper, v);
  }

  lemma PassedExtension(p: bytes, upper: bytes) returns (v: bytes)
    requires p <= upper && HasRoom(upper, |p|)
    ensures p <= v && Compare(v, upper) > 0 && !(upper <= v)
  {
    var j :| |p| <= j < |upper| && upper[j] != 255;
    v := upper[..j] + [255];
    CommonPrefixUnique(v, upper, j);
  }

  lemma NotAPrefix(lower: bytes, p: bytes, v: bytes)
    requires Le(lower, p) && p <= v && !(lower <= p)
    ensures !(lower <= v)
  {
    var c := CommonPrefix(lower, p);
    assert forall j :: 0 <= j < |p| ==> v[j] == p[j];
    assert c < |lower|;
  }

  /** A side of a split answers every search for what its members may hold exactly when no member is endangered. */
  lemma SplitSideExact(keys: seq<Key>, cut: nat)
    requires keys != [] && (forall k <- keys :: Le(k.lower, k.upper)) && cut > KeyPrefix(Merged(keys))
    ensures SideLosesNothing(keys, SideKey(keys, cut))
       <==> forall k <- keys :: !Endangered(k, SideKey(keys, cut))
  {
    hide Compare, Merged, Truncate, Endangered, Covers, Consistent;
    if forall k <- keys :: !Endangered(k, SideKey(keys, cut)) {
      forall k, v, strategy, query | k in keys && Covers(k, v, true) && Satisfies(v, strategy, query)
        ensures Consistent(SideKey(keys, cut), query, strategy, false, true)
      {
        var i :| 0 <= i < |keys| && keys[i] == k;
        MemberIsKept(keys, i, v, strategy, query, cut);
      }
    } else {
      var k :| k in keys && Endangered(k, SideKey(keys, cut));
      var i :| 0 <= i < |keys| && keys[i] == k;
      var v := EndangeredIsLost(keys, i, cut);
      assert Satisfies(v, Equal, v);
    }
  }

  /** Leaf entries are never outgrown, so never endangered: they are not cut. */
  lemma LeafEntriesAreSafe(v: bytes, side: Key)
    ensures !Outgrown(Key(v, v), side) && !Endangered(Key(v, v), side)
  {
    CommonPrefixUnique(v, v, |v|);
  }

  /**
   A split of an inner page that loses a value: "0" and "abz" were united into ("0","ab"), the page
   also holds ("abb","abc"), and the other half has a four-byte common prefix.  An equality search for
   "abz" is then turned away from the left half, which holds it.
   */
  lemma InnerSplitCanLoseAValue()
    ensures var zero, abz := [48], [97, 98, 122];
      var united := UnionKey([Key(zero, zero), Key(abz, abz)], true);
      var left := [united, Key([97, 98, 98], [97, 98, 99])];
      var right := [Key([122, 122, 122, 122], [122, 122, 122, 122]), Key([122, 122, 122, 122, 122], [122, 122, 122, 122, 122])];
      && Covers(united, abz, true)
      && !Consistent(SideKey(left, SplitCut(Merged(left), Merged(right))), abz, Equal, false, true)
  {
    var zero: bytes, abz: bytes, abc: bytes := [48], [97, 98, 122], [97, 98, 99];
    var z4: bytes, z5: bytes := [122, 122, 122, 122], [122, 122, 122, 122, 122];
    var parts := [Key(zero, zero), Key(abz, abz)];
    CommonPrefixUnique(zero, abz, 0);
    MergedPair(parts[0], parts[1]);
    assert abz[..2] == [97, 98];
    ValueCoversItself(abz, true);
    UnionCovers(parts, 1, abz, true);
    CommonPrefixUnique(zero, [97, 98, 98], 0);
    CommonPrefixUnique([97, 98], abc, 2);
    MergedPair(Key(zero, [97, 98]), Key([97, 98, 98], abc));
    CommonPrefixUnique(z4, z5, 4);
    MergedPair(Key(z4, z4), Key(z5, z5));
    CommonPrefixUnique(zero, abc, 0);
    CommonPrefixUnique(abz, abc, 2);
  }

  lemma MergedPair(a: Key, b: Key)
    ensures Merged([a, b]) == BinUnion(a, b)
  {
    assert [a, b][..1] == [a];
  }

  // ----- whole indexes -----

  /**
   How a stored inner key came about: from an indexed value, by `gbt_var_union` over entries that were there
   at the time, or as one side of `gbt_var_picksplit`, where `cut` is the length both sides are cut at.
   */
  datatype Origin =
    | Value(v: bytes)
    | UnionOf(parts: seq<Origin>)
    | Side(parts: seq<Origin>, cut: nat)

  ghost function KeyOf(o: Origin, trnc: bool): Key {
    match o
    case Value(v) => Key(v, v)
    case UnionOf(parts) => if parts == [] then Key([], []) else UnionKey(KeysOf(parts, trnc), trnc)
    case Side(parts, cut) => if parts == [] then Key([], []) else SideKey(KeysOf(parts, trnc), cut)
  }

  ghost function KeysOf(parts: seq<Origin>, trnc: bool): (keys: seq<Key>)
    ensures |keys| == |parts|
    ensures forall i :: 0 <= i < |parts| ==> keys[i] == KeyOf(parts[i], trnc)
  {
    seq(|parts|, i requires 0 <= i < |parts| => KeyOf(parts[i], trnc))
  }

  /** A history of unions, of splits of leaf pages, and of splits of inner pages in which no member is outgrown. */
  ghost predicate Made(o: Origin, trnc: bool) {
    match o
    case Value(_) => true
    case UnionOf(parts) => parts != [] && forall p <- parts :: Made(p, trnc)
    case Side(parts, cut) =>
      && parts != [] && trnc && (forall p <- parts :: Made(p, trnc))
      && cut > KeyPrefix(Merged(KeysOf(parts, trnc)))
      && forall k <- KeysOf(parts, trnc) :: !Outgrown(k, SideKey(KeysOf(parts, trnc), cut))
  }

  /** Splits of leaf pages are always such: entries that are values are not cut, so never outgrown. */
  lemma {:induction false} LeafSplitIsMade(values: seq<bytes>, parts: seq<Origin>, cut: nat)
    requires values != [] && |parts| == |values| && forall i :: 0 <= i < |values| ==> parts[i] == Value(values[i])
    requires cut > KeyPrefix(Merged(KeysOf(parts, true)))
    ensures Made(Side(parts, cut), true)
  {
    var keys := KeysOf(parts, true);
    forall k | k in keys ensures !Outgrown(k, SideKey(keys, cut)) {
      var i :| 0 <= i < |keys| && keys[i] == k;
      LeafEntriesAreSafe(values[i], SideKey(keys, cut));
    }
  }

  ghost predicate StandsFor(o: Origin, v: bytes) {
    match o
    case Value(w) => v == w
    case UnionOf(parts) => exists p <- parts :: StandsFor(p, v)
    case Side(parts, _) => exists p <- parts :: StandsFor(p, v)
  }

  /** Whatever its history, a stored key covers every value it stands for. */
  lemma {:induction false} OriginCovers(o: Origin, v: bytes, trnc: bool)
    requires Made(o, trnc) && StandsFor(o, v)
    ensures Covers(KeyOf(o, trnc), v, trnc)
  {
    match o
    case Value(_) => ValueCoversItself(v, trnc);
    case UnionOf(parts) =>
      var i :| 0 <= i < |parts| && StandsFor(parts[i], v);
      OriginCovers(parts[i], v, trnc);
      UnionCovers(KeysOf(parts, trnc), i, v, trnc);
    case Side(parts, cut) =>
      var i :| 0 <= i < |parts| && StandsFor(parts[i], v);
      OriginCovers(parts[i], v, trnc);
      assert KeysOf(parts, trnc)[i] in KeysOf(parts, trnc);
      SideCovers(KeysOf(parts, trnc), i, v, cut);
  }

  /** A GiST index: leaf pages hold values, inner pages hold keys with the page below each. */
  datatype Index = Leaf(values: seq<bytes>) | Inner(entries: seq<(Origin, Index)>)

  ghost predicate Holds(t: Index, v: bytes) {
    match t
    case Leaf(values) => v in values
    case Inner(entries) => exists e <- entries :: Holds(e.1, v)
  }

  /** Every inner key was made from at least the values that are below it now. */
  ghost predicate WellFormed(t: Index, trnc: bool) {
    match t
    case Leaf(_) => true
    case Inner(entries) => forall e <- entries ::
      && Made(e.0, trnc)
      && WellFormed(e.1, trnc)
      && forall v :: Holds(e.1, v) ==> StandsFor(e.0, v)
  }

  /** A GiST scan reaches a value when every key on the way is consistent with the query. */
  ghost predicate Found(t: Index, v: bytes, strategy: Strategy, query: bytes, trnc: bool)
    requires WellFormed(t, trnc)
  {
    match t
    case Leaf(values) => v in values && Consistent(Key(v, v), query, strategy, true, trnc)
    case Inner(entries) => exists e <- entries ::
      Consistent(KeyOf(e.0, trnc), query, strategy, false, trnc) && Found(e.1, v, strategy, query, trnc)
  }

  /** A scan of any index of any height returns exactly the indexed values that satisfy the query. */
  lemma {:induction false} SearchIsExact(t: Index, v: bytes, strategy: Strategy, query: bytes, trnc: bool)
    requires WellFormed(t, trnc)
    ensures Found(t, v, strategy, query, trnc) <==> Holds(t, v) && Satisfies(v, strategy, query)
  {
    match t
    case Leaf(_) => LeafIsExact(v, strategy, query, trnc);
    case Inner(entries) =>
      forall e | e in entries
        ensures Found(e.1, v, strategy, query, trnc) <==> Holds(e.1, v) && Satisfies(v, strategy, query)
      {
        SearchIsExact(e.1, v, strategy, query, trnc);
      }
      if Holds(t, v) && Satisfies(v, strategy, query) {
        var e :| e in entries && Holds(e.1, v);
        OriginCovers(e.0, v, trnc);
        CoversIsConsistent(KeyOf(e.0, trnc), v, strategy, query, trnc);
      }
  }
}
