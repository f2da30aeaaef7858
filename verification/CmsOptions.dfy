// The -signer, -inkey and -keyopt options of the cms command, for a signing operation.
//
// The reference does not run a machine at all: it cuts the option list into groups, one per signer,
// and reads the signer, the key and the key options off each group.

module CmsOptions {
  import opened Options

  datatype Opt = Signer(arg: string) | InKey(arg: string) | KeyOpt(arg: string)

  datatype KeyParam = KeyParam(idx: int, params: seq<string>)

  datatype Status = Accepted | IllegalInKey | NoKeyForOption | NoSigner

  // ---- reading a list of options ----

  function Signers(opts: seq<Opt>): seq<string>
  {
    if opts == [] then []
    else
      var last := opts[|opts| - 1];
      Signers(opts[..|opts| - 1]) + if last.Signer? then [last.arg] else []
  }

  function Keys(opts: seq<Opt>): seq<string>
  {
    if opts == [] then []
    else
      var last := opts[|opts| - 1];
      Keys(opts[..|opts| - 1]) + if last.InKey? then [last.arg] else []
  }

  function Params(opts: seq<Opt>): seq<string>
  {
    if opts == [] then []
    else
      var last := opts[|opts| - 1];
      Params(opts[..|opts| - 1]) + if last.KeyOpt? then [last.arg] else []
  }

  // ---- the reference: groups ----

  /** The option still belongs to the group: a group has one signer and one key at most. */
  predicate Fits(group: seq<Opt>, o: Opt)
  {
    match o
    case Signer(_) => Signers(group) == []
    case InKey(_) => Keys(group) == []
    case KeyOpt(_) => true
  }

  function Flatten(groups: seq<seq<Opt>>): seq<Opt>
  {
    if groups == [] then [] else Flatten(groups[..|groups| - 1]) + groups[|groups| - 1]
  }

  /**
   * A cut of the options into groups for signing: every group has exactly one signer and at most one
   * key, begins with one of them, and begins only where the option no longer fits the group before.
   */
  ghost predicate IsGrouping(opts: seq<Opt>, groups: seq<seq<Opt>>)
  {
    Flatten(groups) == opts && groups != [] &&
    (forall i :: 0 <= i < |groups| ==>
      groups[i] != [] && !groups[i][0].KeyOpt? && |Signers(groups[i])| == 1 && |Keys(groups[i])| <= 1) &&
    (forall i :: 1 <= i < |groups| ==> !Fits(groups[i - 1], groups[i][0]))
  }

  function SignerOf(group: seq<Opt>): string
    requires |Signers(group)| == 1
  {
    Signers(group)[0]
  }

  /** A signer without a key is its own key. */
  function KeyOf(group: seq<Opt>): string
    requires |Signers(group)| == 1
  {
    if Keys(group) == [] then Signers(group)[0] else Keys(group)[0]
  }

  /** What the signing loop does for signer i: the first node with that index, if there is one. */
  function OptionsFor(params: seq<KeyParam>, i: int): seq<string>
  {
    if params == [] then [] else if params[0].idx == i then params[0].params else OptionsFor(params[1..], i)
  }

  // ---- the greedy cut, which every grouping must equal ----

  function Extend(groups: seq<seq<Opt>>, o: Opt): (r: seq<seq<Opt>>)
    ensures r != []
  {
    if groups == [] then [[o]]
    else
      var k := |groups| - 1;
      if Fits(groups[k], o) then groups[..k] + [groups[k] + [o]] else groups + [[o]]
  }

  function Cut(opts: seq<Opt>): (groups: seq<seq<Opt>>)
    ensures opts != [] ==> groups != []
  {
    if opts == [] then [] else Extend(Cut(opts[..|opts| - 1]), opts[|opts| - 1])
  }

  ghost predicate GroupShape(group: seq<Opt>)
  {
    group != [] && |Signers(group)| <= 1 && |Keys(group)| <= 1
  }

  /** Groups of the right shape, with or without a signer, each begun only where it had to be. */
  ghost predicate Shaped(groups: seq<seq<Opt>>)
  {
    (forall i :: 0 <= i < |groups| ==> GroupShape(groups[i])) &&
    (forall i :: 1 <= i < |groups| ==> groups[i] != [] && !Fits(groups[i - 1], groups[i][0]))
  }

  lemma GroupShapeExtend(group: seq<Opt>, o: Opt)
    ensures GroupShape([o])
    ensures GroupShape(group) && Fits(group, o) ==> GroupShape(group + [o])
    ensures GroupShape(group + [o]) && group != [] ==> GroupShape(group) && Fits(group, o)
  {
    ReadsSingle(o);
    ReadsOne(group, o);
  }

  lemma FlattenLast(groups: seq<seq<Opt>>, group: seq<Opt>)
    ensures Flatten(groups + [group]) == Flatten(groups) + group
  {
    assert (groups + [group])[..|groups|] == groups;
  }

  lemma ExtendFlatten(groups: seq<seq<Opt>>, o: Opt)
    ensures Flatten(Extend(groups, o)) == Flatten(groups) + [o]
  {
    hide Fits;
    if groups == [] || !Fits(groups[|groups| - 1], o) {
      FlattenLast(groups, [o]);
      assert groups == [] ==> groups + [[o]] == [[o]];
    } else {
      var k := |groups| - 1;
      FlattenLast(groups[..k], groups[k] + [o]);
    }
  }

  lemma ShapedPush(groups: seq<seq<Opt>>, group: seq<Opt>)
    requires Shaped(groups) && GroupShape(group) && group != []
    requires groups != [] ==> !Fits(groups[|groups| - 1], group[0])
    ensures Shaped(groups + [group])
  {
    hide GroupShape, Fits;
  }

  lemma ShapedDrop(groups: seq<seq<Opt>>)
    requires Shaped(groups) && groups != []
    ensures Shaped(groups[..|groups| - 1]) && GroupShape(groups[|groups| - 1]) && groups[|groups| - 1] != []
    ensures |groups| > 1 ==> !Fits(groups[|groups| - 2], groups[|groups| - 1][0])
    ensures groups[0] != []
  {
    assert GroupShape(groups[0]) && GroupShape(groups[|groups| - 1]);
  }

  lemma ExtendShaped(groups: seq<seq<Opt>>, o: Opt)
    requires Shaped(groups)
    ensures Shaped(Extend(groups, o)) && (groups != [] ==> groups[0] != [])
    ensures Extend(groups, o)[0] != [] && Extend(groups, o)[0][0] == if groups == [] then o else groups[0][0]
  {
    if groups == [] {
      GroupShapeExtend([], o);
      ShapedPush(groups, [o]);
      assert groups + [[o]] == [[o]];
    } else {
      var k := |groups| - 1;
      GroupShapeExtend(groups[k], o);
      ShapedDrop(groups);
      hide GroupShape, Shaped;
      if Fits(groups[k], o) {
        ShapedPush(groups[..k], groups[k] + [o]);
      } else {
        ShapedPush(groups, [o]);
      }
    }
  }

  lemma {:induction false} CutShaped(opts: seq<Opt>)
    ensures Shaped(Cut(opts)) && Flatten(Cut(opts)) == opts
    ensures opts != [] ==> Cut(opts)[0] != [] && Cut(opts)[0][0] == opts[0]
  {
    CutEmpty();
    if opts != [] {
      hide Shaped, Flatten, Extend, Cut;
      var front, o := opts[..|opts| - 1], opts[|opts| - 1];
      assert front + [o] == opts;
      CutShaped(front);
      CutExtend(front, o);
      ExtendFlatten(Cut(front), o);
      ExtendShaped(Cut(front), o);
      CutNonEmpty(front);
    }
  }

  lemma CutNonEmpty(opts: seq<Opt>)
    ensures Cut(opts) == [] <==> opts == []
  {}

  lemma ShapedTrim(front: seq<seq<Opt>>, trimmed: seq<Opt>, o: Opt)
    requires Shaped(front + [trimmed + [o]]) && trimmed != []
    ensures Shaped(front + [trimmed]) && Fits(trimmed, o)
  {
    var groups := front + [trimmed + [o]];
    ShapedDrop(groups);
    assert groups[..|groups| - 1] == front && (trimmed + [o])[0] == trimmed[0];
    GroupShapeExtend(trimmed, o);
    hide Shaped, GroupShape, Fits;
    assert front != [] ==> groups[|groups| - 2] == front[|front| - 1];
    assert GroupShape(trimmed + [o]);
    ShapedPush(front, trimmed);
  }

  /** The groups before the last option was added. */
  function Shrink(groups: seq<seq<Opt>>): seq<seq<Opt>>
    requires groups != []
  {
    var k := |groups| - 1;
    if |groups[k]| <= 1 then groups[..k] else groups[..k] + [groups[k][..|groups[k]| - 1]]
  }

  lemma ExtendSplits(front: seq<seq<Opt>>, group: seq<Opt>, o: Opt)
    ensures (front == [] || !Fits(front[|front| - 1], o)) ==> Extend(front, o) == front + [[o]]
    ensures Fits(group, o) ==> Extend(front + [group], o) == front + [group + [o]]
  {
    hide Fits;
    assert (front + [group])[..|front|] == front;
    assert front == [] ==> front + [[o]] == [[o]];
  }

  lemma ShrinkLast(front: seq<seq<Opt>>, last: seq<Opt>)
    ensures Shrink(front + [last]) == if |last| <= 1 then front else front + [last[..|last| - 1]]
  {
    assert (front + [last])[..|front|] == front;
  }

  lemma ShrinkExtend(front: seq<seq<Opt>>, trimmed: seq<Opt>, o: Opt)
    requires Shaped(front + [trimmed + [o]])
    ensures Shaped(Shrink(front + [trimmed + [o]]))
    ensures Extend(Shrink(front + [trimmed + [o]]), o) == front + [trimmed + [o]]
  {
    var groups := front + [trimmed + [o]];
    ShapedDrop(groups);
    hide Shaped, GroupShape, Fits, Extend, Shrink;
    ExtendSplits(front, trimmed, o);
    ShrinkLast(front, trimmed + [o]);
    assert groups[..|front|] == front && (trimmed + [o])[..|trimmed|] == trimmed;
    if trimmed != [] {
      ShapedTrim(front, trimmed, o);
    } else {
      assert trimmed + [o] == [o];
      assert front != [] ==> groups[|groups| - 2] == front[|front| - 1];
    }
  }

  lemma CutLast(front: seq<seq<Opt>>, trimmed: seq<Opt>, o: Opt)
    requires Shaped(front + [trimmed + [o]])
    requires Cut(Flatten(Shrink(front + [trimmed + [o]]))) == Shrink(front + [trimmed + [o]])
    ensures Cut(Flatten(front + [trimmed + [o]])) == front + [trimmed + [o]]
  {
    hide *;
    ShrinkExtend(front, trimmed, o);
    var groups := front + [trimmed + [o]];
    var prev := Shrink(groups);
    ExtendFlatten(prev, o);
    CutExtend(Flatten(prev), o);
  }

  lemma LastOption(groups: seq<seq<Opt>>) returns (front: seq<seq<Opt>>, trimmed: seq<Opt>, o: Opt)
    requires groups != [] && groups[|groups| - 1] != []
    ensures groups == front + [trimmed + [o]]
  {
    var last := groups[|groups| - 1];
    front, trimmed, o := groups[..|groups| - 1], last[..|last| - 1], last[|last| - 1];
    assert trimmed + [o] == last && front + [last] == groups;
  }

  /** There is only one way to cut. */
  lemma {:induction false} CutUnique(groups: seq<seq<Opt>>)
    requires Shaped(groups)
    ensures groups == Cut(Flatten(groups))
    decreases |Flatten(groups)|
  {
    if groups == [] {
      CutEmpty();
    } else {
      hide *;
      ShapedDrop(groups);
      assert groups[|groups| - 1] != [];
      var front, trimmed, o := LastOption(groups);
      ShrinkExtend(front, trimmed, o);
      ExtendFlatten(Shrink(groups), o);
      CutUnique(Shrink(groups));
      CutLast(front, trimmed, o);
    }
  }

  /** A closed group never changes again. */
  lemma {:induction false} CutPrefix(opts: seq<Opt>, n: nat, i: nat)
    requires n <= |opts| && i + 1 < |Cut(opts[..n])|
    ensures i + 1 < |Cut(opts)| && Cut(opts)[i] == Cut(opts[..n])[i]
    decreases |opts| - n
  {
    if n == |opts| {
      assert opts[..n] == opts;
    } else {
      assert opts[..n + 1][..n] == opts[..n];
      CutPrefix(opts, n + 1, i);
    }
  }

  /** A grouping exists exactly when the greedy cut is one. */
  lemma GroupingIsCut(opts: seq<Opt>, groups: seq<seq<Opt>>)
    requires IsGrouping(opts, groups)
    ensures groups == Cut(opts) && opts != [] && !opts[0].KeyOpt?
  {
    assert Shaped(groups);
    CutUnique(groups);
    CutShaped(opts);
  }

  lemma {:induction false} FlattenReads(groups: seq<seq<Opt>>)
    requires forall i :: 0 <= i < |groups| ==> |Signers(groups[i])| == 1
    ensures Signers(Flatten(groups)) == seq(|groups|, i requires 0 <= i < |groups| => SignerOf(groups[i]))
  {
    if groups != [] {
      hide Signers;
      var k := |groups| - 1;
      var front := groups[..k];
      assert Flatten(groups) == Flatten(front) + groups[k];
      hide Flatten;
      FlattenReads(front);
      ReadsAppend(Flatten(front), groups[k]);
      assert Signers(groups[k]) == [SignerOf(groups[k])];
    }
  }

  lemma {:induction false} ReadsAppend(a: seq<Opt>, b: seq<Opt>)
    ensures Signers(a + b) == Signers(a) + Signers(b)
    ensures Keys(a + b) == Keys(a) + Keys(b)
    ensures Params(a + b) == Params(a) + Params(b)
  {
    if b == [] {
      assert a + b == a;
    } else {
      hide Signers, Keys, Params;
      var front, o := b[..|b| - 1], b[|b| - 1];
      assert a + b == (a + front) + [o] && b == front + [o];
      ReadsAppend(a, front);
      ReadsOne(a + front, o);
      ReadsOne(front, o);
    }
  }

  function Explicit(groups: seq<seq<Opt>>): seq<string>
  {
    if groups == [] then [] else Explicit(groups[..|groups| - 1]) + Keys(groups[|groups| - 1])
  }

  /** Every -inkey argument belongs to exactly one group, in the order given. */
  lemma {:induction false} KeysConserved(groups: seq<seq<Opt>>)
    ensures Explicit(groups) == Keys(Flatten(groups))
  {
    if groups != [] {
      var k := |groups| - 1;
      KeysConserved(groups[..k]);
      ReadsAppend(Flatten(groups[..k]), groups[k]);
    }
  }

  /** Nodes in strictly increasing order, and each group's key options found under its own index. */
  ghost predicate ParamsHold(params: seq<KeyParam>, groups: seq<seq<Opt>>)
  {
    (forall j, k :: 0 <= j < k < |params| ==> params[j].idx < params[k].idx) &&
    (forall j :: 0 <= j < |params| ==> 0 <= params[j].idx < |groups| && params[j].params != []) &&
    (forall i :: 0 <= i < |groups| ==> OptionsFor(params, i) == Params(groups[i]))
  }

  lemma CutExtend(opts: seq<Opt>, o: Opt)
    ensures Cut(opts + [o]) == Extend(Cut(opts), o)
  {
    assert (opts + [o])[..|opts|] == opts;
  }

  lemma ReadsOne(group: seq<Opt>, o: Opt)
    ensures Signers(group + [o]) == Signers(group) + if o.Signer? then [o.arg] else []
    ensures Keys(group + [o]) == Keys(group) + if o.InKey? then [o.arg] else []
    ensures Params(group + [o]) == Params(group) + if o.KeyOpt? then [o.arg] else []
  {
    assert (group + [o])[..|group|] == group;
  }

  lemma ReadsSingle(o: Opt)
    ensures Signers([o]) == if o.Signer? then [o.arg] else []
    ensures Keys([o]) == if o.InKey? then [o.arg] else []
    ensures Params([o]) == if o.KeyOpt? then [o.arg] else []
  {
    assert [o][..0] == [];
  }

  lemma {:induction false} OptionsForAbsent(params: seq<KeyParam>, i: int)
    requires forall j :: 0 <= j < |params| ==> params[j].idx != i
    ensures OptionsFor(params, i) == []
  {
    if params != [] { OptionsForAbsent(params[1..], i); }
  }

  lemma {:induction false} OptionsForLast(params: seq<KeyParam>, node: KeyParam, i: int)
    requires forall j :: 0 <= j < |params| ==> params[j].idx != node.idx
    ensures OptionsFor(params + [node], i) == if i == node.idx then node.params else OptionsFor(params, i)
  {
    if params != [] {
      OptionsForLast(params[1..], node, i);
      assert (params + [node])[1..] == params[1..] + [node];
    } else {
      assert (params + [node])[1..] == [];
    }
  }

  /** A signer or key option moves no key option. */
  lemma ParamsKeep(params: seq<KeyParam>, groups: seq<seq<Opt>>, o: Opt)
    requires ParamsHold(params, groups) && !o.KeyOpt?
    ensures ParamsHold(params, Extend(groups, o))
  {
    hide Params, OptionsFor, Signers, Keys, Fits;
    var k := |groups| - 1;
    if groups != [] && Fits(groups[k], o) {
      var extended := groups[..k] + [groups[k] + [o]];
      assert Extend(groups, o) == extended;
      hide Extend;
      ReadsOne(groups[k], o);
      assert forall i :: 0 <= i < k ==> extended[i] == groups[i];
      assert Params(extended[k]) == Params(groups[k]);
    } else {
      var extended := groups + [[o]];
      assert Extend(groups, o) == extended;
      hide Extend;
      ReadsSingle(o);
      OptionsForAbsent(params, |groups|);
    }
  }

  /** The case of the option loop for -keyopt. */
  function AddParam(params: seq<KeyParam>, keyidx: int, arg: string): seq<KeyParam>
  {
    if params == [] || params[|params| - 1].idx != keyidx then params + [KeyParam(keyidx, [arg])]
    else
      var last := params[|params| - 1];
      params[..|params| - 1] + [KeyParam(keyidx, last.params + [arg])]
  }

  lemma AddParamByParts(params: seq<KeyParam>, keyidx: int, arg: string)
    requires params != [] && params[|params| - 1].idx == keyidx
    ensures AddParam(params, keyidx, arg) ==
            params[|params| - 1 := KeyParam(keyidx, params[|params| - 1].params + [arg])]
  {}

  lemma AddParamNew(params: seq<KeyParam>, keyidx: int, arg: string)
    requires params == [] || params[|params| - 1].idx != keyidx
    ensures AddParam(params, keyidx, arg) ==
            (params + [KeyParam(keyidx, [])])[|params| := KeyParam(keyidx, [] + [arg])]
  {
    assert [] + [arg] == [arg];
  }

  lemma ExtendKeyOpt(groups: seq<seq<Opt>>, arg: string)
    requires groups != []
    ensures Extend(groups, KeyOpt(arg)) == groups[..|groups| - 1] + [groups[|groups| - 1] + [KeyOpt(arg)]]
  {}

  lemma AddParamOptions(params: seq<KeyParam>, keyidx: int, arg: string, i: int)
    requires forall j, k :: 0 <= j < k < |params| ==> params[j].idx < params[k].idx
    requires forall j :: 0 <= j < |params| ==> params[j].idx <= keyidx
    ensures OptionsFor(AddParam(params, keyidx, arg), i) == OptionsFor(params, i) + if i == keyidx then [arg] else []
  {
    if params != [] && params[|params| - 1].idx == keyidx {
      var front, last := params[..|params| - 1], params[|params| - 1];
      assert params == front + [last];
      OptionsForLast(front, last, i);
      OptionsForLast(front, KeyParam(keyidx, last.params + [arg]), i);
    } else {
      OptionsForLast(params, KeyParam(keyidx, [arg]), i);
      OptionsForAbsent(params, keyidx);
    }
  }

  /** A key option goes to the pending group, at the end of what that group already has. */
  lemma ParamsAdd(params: seq<KeyParam>, groups: seq<seq<Opt>>, arg: string)
    requires ParamsHold(params, groups) && groups != []
    ensures ParamsHold(AddParam(params, |groups| - 1, arg), Extend(groups, KeyOpt(arg)))
  {
    hide Params, OptionsFor, Signers, Keys;
    var k, o := |groups| - 1, KeyOpt(arg);
    assert Fits(groups[k], o);
    var after, extended := AddParam(params, k, arg), groups[..k] + [groups[k] + [o]];
    assert Extend(groups, o) == extended;
    hide Extend, Fits;
    ReadsOne(groups[k], o);
    forall i | 0 <= i < |extended| ensures OptionsFor(after, i) == Params(extended[i]) {
      AddParamOptions(params, k, arg, i);
      assert OptionsFor(params, i) == Params(groups[i]);
      assert i < k ==> extended[i] == groups[i] && Params(groups[i]) + [] == Params(groups[i]);
    }
  }

  /** Closing a group that has no signer rules out every grouping, whatever follows. */
  lemma NoGrouping(opts: seq<Opt>, n: nat, k: nat, groups: seq<seq<Opt>>)
    requires n <= |opts| && k + 1 < |Cut(opts[..n])| && Signers(Cut(opts[..n])[k]) == []
    ensures !IsGrouping(opts, groups)
  {
    if IsGrouping(opts, groups) {
      GroupingIsCut(opts, groups);
      CutPrefix(opts, n, k);
    }
  }

  /** So does ending with a group that has no signer, or with no group at all. */
  lemma NoGroupingAtEnd(opts: seq<Opt>, groups: seq<seq<Opt>>)
    requires Cut(opts) == [] || Signers(Cut(opts)[|Cut(opts)| - 1]) == []
    ensures !IsGrouping(opts, groups)
  {
    if IsGrouping(opts, groups) { GroupingIsCut(opts, groups); }
  }

  lemma CutEmpty()
    ensures Cut([]) == []
  {}

  lemma SignersConserved(opts: seq<Opt>, signers: seq<string>)
    requires |signers| == |Cut(opts)|
    requires forall i :: 0 <= i < |Cut(opts)| ==>
      |Signers(Cut(opts)[i])| == 1 && signers[i] == SignerOf(Cut(opts)[i])
    ensures signers == Signers(opts)
  {
    CutShaped(opts);
    FlattenReads(Cut(opts));
  }

  /** So does a key option before the first signer or key. */
  lemma NoGroupingAfterKeyOpt(opts: seq<Opt>, groups: seq<seq<Opt>>)
    requires opts == [] || opts[0].KeyOpt?
    ensures !IsGrouping(opts, groups)
  {
    if IsGrouping(opts, groups) { GroupingIsCut(opts, groups); }
  }

  /** Only the first group can begin with a key option. */
  lemma CutIsGrouping(opts: seq<Opt>)
    requires opts != [] && !opts[0].KeyOpt?
    requires forall i :: 0 <= i < |Cut(opts)| ==> |Signers(Cut(opts)[i])| == 1
    ensures IsGrouping(opts, Cut(opts))
  {
    CutShaped(opts);
    hide Signers, Keys, Cut, Flatten, Fits;
    var groups: seq<seq<Opt>> := Cut(opts);
    forall i: nat | i < |groups| ensures !groups[i][0].KeyOpt? {
      if i > 0 && groups[i][0].KeyOpt? { FitsKeyOpt(groups[i - 1], groups[i][0]); }
    }
  }

  lemma FitsKeyOpt(group: seq<Opt>, o: Opt)
    requires o.KeyOpt?
    ensures Fits(group, o)
  {}

  // ---- groups by example ----

  lemma ReadsThree(a: Opt, b: Opt, c: Opt)
    ensures Signers([a, b]) == Signers([a]) + Signers([b]) && Keys([a, b]) == Keys([a]) + Keys([b])
    ensures Params([a, b]) == Params([a]) + Params([b])
    ensures Signers([a, b, c]) == Signers([a, b]) + Signers([c]) && Keys([a, b, c]) == Keys([a, b]) + Keys([c])
    ensures Params([a, b, c]) == Params([a, b]) + Params([c])
  {
    hide Signers, Keys, Params;
    ReadsAppend([a], [b]);
    ReadsAppend([a, b], [c]);
    assert [a] + [b] == [a, b] && [a, b] + [c] == [a, b, c];
  }

  /** A signer with a key and an option, and one that is its own key. */
  lemma TwoSigners(a: string, k: string, o: string, b: string)
    ensures var one, two := [Signer(a), InKey(k), KeyOpt(o)], [Signer(b)];
      IsGrouping([Signer(a), InKey(k), KeyOpt(o), Signer(b)], [one, two]) &&
      |Signers(one)| == 1 && |Signers(two)| == 1 &&
      SignerOf(one) == a && KeyOf(one) == k && Params(one) == [o] &&
      SignerOf(two) == b && KeyOf(two) == b && Params(two) == []
  {
    var one, two := [Signer(a), InKey(k), KeyOpt(o)], [Signer(b)];
    ReadsThree(Signer(a), InKey(k), KeyOpt(o));
    ReadsSingle(Signer(a));
    ReadsSingle(InKey(k));
    ReadsSingle(KeyOpt(o));
    ReadsSingle(Signer(b));
    hide Signers, Keys, Params;
    TwoGroups(one, two);
    assert one + two == [Signer(a), InKey(k), KeyOpt(o), Signer(b)];
  }

  lemma TwoGroups(one: seq<Opt>, two: seq<Opt>)
    ensures Flatten([one, two]) == one + two && Flatten([one]) == one
  {
    FlattenLast([one], two);
    FlattenLast([], one);
    assert [one] + [two] == [one, two] && [] + [one] == [one] && [] + one == one;
  }

  /** The key may come first, and a second key opens a group of its own. */
  lemma KeyFirst(a: string, k: string, l: string, b: string)
    ensures var one, two := [InKey(k), Signer(a)], [InKey(l), Signer(b)];
      IsGrouping([InKey(k), Signer(a), InKey(l), Signer(b)], [one, two]) &&
      |Signers(one)| == 1 && |Signers(two)| == 1 &&
      SignerOf(one) == a && KeyOf(one) == k && SignerOf(two) == b && KeyOf(two) == l
  {
    var one, two := [InKey(k), Signer(a)], [InKey(l), Signer(b)];
    ReadsThree(InKey(k), Signer(a), KeyOpt(a));
    ReadsThree(InKey(l), Signer(b), KeyOpt(a));
    ReadsSingle(Signer(a));
    ReadsSingle(InKey(k));
    ReadsSingle(Signer(b));
    ReadsSingle(InKey(l));
    hide Signers, Keys, Params;
    TwoGroups(one, two);
    assert one + two == [InKey(k), Signer(a), InKey(l), Signer(b)];
  }

  // ---- the option machine ----

  class SigningOptions {
    var signerfile: Option<string>
    var keyfile: Option<string>
    var sksigners: seq<string>
    var skkeys: seq<string>
    var keyParams: seq<KeyParam>     // the linked list from key_first; its last node is key_param

    /** The two parallel lists are what the groups say. */
    ghost predicate Lists(groups: seq<seq<Opt>>)
      reads this
    {
      |sksigners| == |skkeys| == |groups| &&
      forall i :: 0 <= i < |groups| ==>
        |Signers(groups[i])| == 1 && sksigners[i] == SignerOf(groups[i]) && skkeys[i] == KeyOf(groups[i])
    }

    /** All groups but the last are closed and in the lists; the last one is pending. */
    ghost predicate Holds(groups: seq<seq<Opt>>)
      reads this
    {
      ParamsHold(keyParams, groups) &&
      if groups == [] then
        signerfile.None? && keyfile.None? && Lists([]) && keyParams == []
      else
        Lists(groups[..|groups| - 1]) && Pending(Signers(groups[|groups| - 1]), Keys(groups[|groups| - 1]))
    }

    ghost predicate Pending(signers: seq<string>, keys: seq<string>)
      reads this
    {
      |signers| <= 1 && |keys| <= 1 && |signers| + |keys| >= 1 &&
      signerfile == (if signers == [] then None else Some(signers[0])) &&
      keyfile == (if keys == [] then None else Some(keys[0]))
    }

    constructor ()
      ensures Holds([])
    {
      signerfile, keyfile, sksigners, skkeys, keyParams := None, None, [], [], [];
    }

    method OnSigner(arg: string, ghost groups: seq<seq<Opt>>)
      requires Holds(groups)
      modifies this
      ensures Holds(Extend(groups, Signer(arg)))
    {
      hide ParamsHold, Signers, Keys;
      ReadsSingle(Signer(arg));
      if groups != [] { ReadsOne(groups[|groups| - 1], Signer(arg)); }
      ParamsKeep(keyParams, groups, Signer(arg));
      if signerfile.Some? {
        sksigners := sksigners + [signerfile.value];
        if keyfile.None? {
          keyfile := signerfile;
        }
        skkeys := skkeys + [keyfile.value];
        keyfile := None;
      }
      signerfile := Some(arg);
    }

    method OnInKey(arg: string, ghost groups: seq<seq<Opt>>) returns (ok: bool)
      requires Holds(groups)
      modifies this
      ensures ok ==> Holds(Extend(groups, InKey(arg)))
      // A second key closes a group that has no signer.
      ensures !ok ==> groups != [] && Signers(groups[|groups| - 1]) == [] &&
                      Extend(groups, InKey(arg)) == groups + [[InKey(arg)]]
    {
      hide ParamsHold, Signers, Keys;
      ReadsSingle(InKey(arg));
      if groups != [] { ReadsOne(groups[|groups| - 1], InKey(arg)); }
      ParamsKeep(keyParams, groups, InKey(arg));
      if keyfile.Some? {
        if signerfile.None? {
          return false;
        }
        sksigners := sksigners + [signerfile.value];
        signerfile := None;
        skkeys := skkeys + [keyfile.value];
      }
      keyfile := Some(arg);
      return true;
    }

    method OnKeyOpt(arg: string, ghost groups: seq<seq<Opt>>) returns (ok: bool)
      requires Holds(groups)
      modifies this`keyParams
      ensures ok <==> groups != []
      ensures ok ==> Holds(Extend(groups, KeyOpt(arg)))
    {
      hide ParamsHold, Signers, Keys, Extend, AddParam;
      var keyidx := -1;
      if keyfile.Some? || signerfile.Some? {
        keyidx := keyidx + 1;
      }
      keyidx := keyidx + |skkeys|;
      if keyidx < 0 {
        return false;
      }
      ReadsOne(groups[|groups| - 1], KeyOpt(arg));
      ExtendKeyOpt(groups, arg);
      assert keyidx == |groups| - 1;
      ParamsAdd(keyParams, groups, arg);
      if keyParams == [] || keyParams[|keyParams| - 1].idx != keyidx {
        AddParamNew(keyParams, keyidx, arg);
        keyParams := keyParams + [KeyParam(keyidx, [])];
      } else {
        AddParamByParts(keyParams, keyidx, arg);
      }
      var k := |keyParams| - 1;
      keyParams := keyParams[k := KeyParam(keyidx, keyParams[k].params + [arg])];
      return true;
    }

    /** The checks and the final append after the option loop. */
    method Finish(ghost groups: seq<seq<Opt>>) returns (status: Status)
      requires Holds(groups)
      modifies this
      ensures status == NoSigner <==> groups == []
      ensures status == IllegalInKey <==> groups != [] && Signers(groups[|groups| - 1]) == []
      ensures status == Accepted || status == NoSigner || status == IllegalInKey
      ensures status == Accepted ==> Lists(groups) && ParamsHold(keyParams, groups)
    {
      hide ParamsHold, Signers, Keys;
      if keyfile.Some? && signerfile.None? {
        return IllegalInKey;
      }
      if signerfile.Some? {
        sksigners := sksigners + [signerfile.value];
        if keyfile.None? {
          keyfile := signerfile;
        }
        skkeys := skkeys + [keyfile.value];
      }
      if sksigners == [] {
        return NoSigner;
      }
      signerfile, keyfile := None, None;
      return Accepted;
    }

    /** The search for the key options of signer i: the first node with that index. */
    method FindParams(i: int) returns (params: seq<string>)
      ensures params == OptionsFor(keyParams, i)
    {
      var k := 0;
      while k < |keyParams|
        invariant 0 <= k <= |keyParams| && OptionsFor(keyParams, i) == OptionsFor(keyParams[k..], i)
      {
        if keyParams[k].idx == i { return keyParams[k].params; }
        assert keyParams[k..][1..] == keyParams[k + 1..];
        k := k + 1;
      }
      return [];
    }

    /** The signing loop: signer, key and key options of each signature are read off its group. */
    method Signatures(ghost groups: seq<seq<Opt>>) returns (sigs: seq<(string, string, seq<string>)>)
      requires Lists(groups) && ParamsHold(keyParams, groups)
      ensures |sigs| == |groups|
      ensures forall i :: 0 <= i < |groups| ==>
        |Signers(groups[i])| == 1 && sigs[i] == (SignerOf(groups[i]), KeyOf(groups[i]), Params(groups[i]))
    {
      hide Signers, Keys, Params, SignerOf, KeyOf, OptionsFor;
      sigs := [];
      var i := 0;
      while i < |sksigners|
        invariant 0 <= i <= |sksigners| && |sigs| == i
        invariant forall k :: 0 <= k < i ==>
          |Signers(groups[k])| == 1 && sigs[k] == (SignerOf(groups[k]), KeyOf(groups[k]), Params(groups[k]))
      {
        var params := FindParams(i);
        assert params == Params(groups[i]);
        sigs := sigs + [(sksigners[i], skkeys[i], params)];
        i := i + 1;
      }
    }

    /**
     * The whole option loop. It accepts exactly the lists that can be cut into groups, and then signer i,
     * its key and its key options are those of group i. In particular the signers are the -signer
     * arguments in order.
     */
    method Run(opts: seq<Opt>) returns (status: Status)
      requires Holds([])
      modifies this
      ensures status == Accepted <==> exists groups :: IsGrouping(opts, groups)
      ensures status == NoSigner <==> opts == []
      ensures status == NoKeyForOption <==> opts != [] && opts[0].KeyOpt?
      ensures status == Accepted ==>
        forall groups :: IsGrouping(opts, groups) ==> Lists(groups) && ParamsHold(keyParams, groups)
      ensures status == Accepted ==> sksigners == Signers(opts)
    {
      hide Holds, ParamsHold, IsGrouping, Cut, Extend, Signers;
      var n := 0;
      ghost var groups := [];
      CutEmpty();
      while n < |opts|
        invariant 0 <= n <= |opts| && Holds(groups) && groups == Cut(opts[..n])
        invariant n > 0 ==> !opts[0].KeyOpt?
      {
        var o := opts[n];
        assert opts[..n] + [o] == opts[..n + 1];
        CutExtend(opts[..n], o);
        var ok := true;
        match o {
          case Signer(arg) => OnSigner(arg, groups);
          case InKey(arg) =>
            ok := OnInKey(arg, groups);
            if !ok {
              forall other ensures !IsGrouping(opts, other) { NoGrouping(opts, n + 1, |groups| - 1, other); }
              return IllegalInKey;
            }
          case KeyOpt(arg) =>
            ok := OnKeyOpt(arg, groups);
            if !ok {
              forall other ensures !IsGrouping(opts, other) { NoGroupingAfterKeyOpt(opts, other); }
              return NoKeyForOption;
            }
        }
        n := n + 1;
        groups := Extend(groups, o);
      }
      assert opts[..n] == opts;
      status := Finish(groups);
      if status == Accepted {
        CutIsGrouping(opts);
        forall other | IsGrouping(opts, other) ensures other == groups { GroupingIsCut(opts, other); }
        SignersConserved(opts, sksigners);
      } else {
        forall other ensures !IsGrouping(opts, other) { NoGroupingAtEnd(opts, other); }
      }
    }
  }
}
