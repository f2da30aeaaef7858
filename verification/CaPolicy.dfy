// The policy check of a certificate request against the CA's policy section, and the removal of
// e-mail addresses from the subject. A name is a list of entries; two values are compared as a whole.

module CaPolicy {
  import opened Options

  datatype Entry = Entry(obj: nat, value: string)

  datatype PolicyItem = PolicyItem(name: string, rule: string)

  datatype Refusal = UnknownType | Missing | NotInCa | Differs | InvalidRule

  datatype Verdict = Subject(entries: seq<Entry>) | Refused(item: nat, why: Refusal)

  // ---- the declarative meaning ----

  /** All entries of a type, in order. */
  function OfType(name: seq<Entry>, obj: nat): (r: seq<Entry>)
    ensures forall e :: e in r <==> e in name && e.obj == obj
  {
    if name == [] then []
    else
      var front, last := name[..|name| - 1], name[|name| - 1];
      assert name == front + [last];
      OfType(front, obj) + if last.obj == obj then [last] else []
  }

  /** Every request entry of the type is also in the CA's name. */
  ghost predicate AllInCa(name: seq<Entry>, ca: seq<Entry>, obj: nat)
  {
    forall e :: e in OfType(name, obj) ==> e in ca
  }

  /** Why an item of a known type refuses the request, if it does. */
  ghost function RefusalOf(rule: string, obj: nat, name: seq<Entry>, ca: seq<Entry>): Option<Refusal>
  {
    if rule == "optional" then None
    else if rule == "supplied" then
      if OfType(name, obj) == [] then Some(Missing) else None
    else if rule == "match" then
      if OfType(name, obj) == [] then Some(Missing)
      else if OfType(ca, obj) == [] then Some(NotInCa)
      else if !AllInCa(name, ca, obj) then Some(Differs)
      else None
    else Some(InvalidRule)
  }

  ghost function ItemRefusal(nidOf: string -> Option<nat>, item: PolicyItem, name: seq<Entry>, ca: seq<Entry>): Option<Refusal>
  {
    if nidOf(item.name).None? then Some(UnknownType)
    else RefusalOf(item.rule, nidOf(item.name).value, name, ca)
  }

  /** The policy's subject: per item in order, all request entries of that type in order. */
  function SubjectOf(nidOf: string -> Option<nat>, policy: seq<PolicyItem>, name: seq<Entry>): seq<Entry>
  {
    if policy == [] then []
    else
      var item := policy[|policy| - 1];
      SubjectOf(nidOf, policy[..|policy| - 1], name)
      + if nidOf(item.name).Some? then OfType(name, nidOf(item.name).value) else []
  }

  // ---- the code ----

  /** X509_NAME_get_index_by_OBJ: the next entry of the type after lastpos, or -1. */
  method GetIndexByObj(name: seq<Entry>, obj: nat, lastpos: int) returns (j: int)
    ensures -1 <= j < |name|
    ensures j >= 0 ==> j > lastpos && name[j].obj == obj
    ensures forall k :: 0 <= k < |name| && lastpos < k && (j >= 0 ==> k < j) ==> name[k].obj != obj
  {
    j := if lastpos < 0 then 0 else lastpos + 1;
    while j < |name|
      invariant 0 <= j && j > lastpos
      invariant forall k :: 0 <= k < |name| && lastpos < k < j ==> name[k].obj != obj
    {
      if name[j].obj == obj { return j; }
      j := j + 1;
    }
    return -1;
  }

  lemma {:induction false} OfTypeSkip(name: seq<Entry>, obj: nat, m: nat, n: nat)
    requires m <= n <= |name| && forall k :: m <= k < n ==> name[k].obj != obj
    ensures OfType(name[..n], obj) == OfType(name[..m], obj)
    decreases n - m
  {
    if m < n {
      OfTypeSkip(name, obj, m, n - 1);
      assert name[..n][..n - 1] == name[..n - 1];
    }
  }

  lemma OfTypeTake(name: seq<Entry>, obj: nat, n: nat)
    requires n < |name| && name[n].obj == obj
    ensures OfType(name[..n + 1], obj) == OfType(name[..n], obj) + [name[n]]
  {
    assert name[..n + 1][..n] == name[..n];
  }

  /** The inner search of a match item: the first CA entry of the type that equals the request's. */
  method FindInCa(ca: seq<Entry>, obj: nat, e: Entry) returns (found: Option<Entry>, why: Refusal)
    requires e.obj == obj
    ensures found.Some? <==> e in ca
    ensures found.Some? ==> found.value == e
    ensures found.None? ==> why == if OfType(ca, obj) == [] then NotInCa else Differs
  {
    var last2 := -1;
    while true
      invariant -1 <= last2 < |ca| && (last2 >= 0 ==> ca[last2].obj == obj)
      invariant forall k :: 0 <= k <= last2 ==> ca[k] != e
      decreases |ca| - last2
    {
      var j := GetIndexByObj(ca, obj, last2);
      if j < 0 && last2 == -1 {
        OfTypeSkip(ca, obj, 0, |ca|);
        assert ca[..|ca|] == ca;
        return None, NotInCa;
      }
      if j >= 0 {
        var push := ca[j];
        last2 := j;
        if e.value == push.value {
          return Some(push), Differs;
        }
      }
      if j < 0 {
        assert ca[last2] in OfType(ca, obj);
        return None, Differs;
      }
    }
  }

  lemma NothingOfType(name: seq<Entry>, obj: nat)
    ensures OfType(name[..0], obj) == []
  {}

  /** The loop of one policy item over the request's entries of its type. */
  method CheckItem(rule: string, obj: nat, name: seq<Entry>, ca: seq<Entry>)
    returns (refusal: Option<Refusal>, pushed: seq<Entry>)
    ensures refusal == RefusalOf(rule, obj, name, ca)
    ensures refusal == None ==> pushed == OfType(name, obj)
  {
    NothingOfType(name, obj);
    hide OfType;
    pushed := [];
    var last := -1;
    while true
      invariant -1 <= last < |name| && (last >= 0 ==> name[last].obj == obj)
      invariant pushed == OfType(name[..last + 1], obj)
      invariant last >= 0 ==> rule == "optional" || rule == "supplied" || rule == "match"
      invariant rule == "match" ==> forall e :: e in pushed ==> e in ca
      decreases |name| - last
    {
      var j := GetIndexByObj(name, obj, last);
      var tne: Option<Entry> := None;
      if j < 0 {
        OfTypeSkip(name, obj, last + 1, |name|);
        assert name[..|name|] == name;
        if last != -1 {
          assert name[last] in OfType(name, obj);
          return None, pushed;
        }
      } else {
        OfTypeSkip(name, obj, last + 1, j);
        OfTypeTake(name, obj, j);
        assert name[j] in OfType(name, obj);
        tne := Some(name[j]);
      }
      last := j;
      if rule == "optional" {
        if tne.Some? { pushed := pushed + [tne.value]; }
      } else if rule == "supplied" {
        if tne.None? { return Some(Missing), pushed; }
        pushed := pushed + [tne.value];
      } else if rule == "match" {
        if tne.None? { return Some(Missing), pushed; }
        var push, why := FindInCa(ca, obj, tne.value);
        if push.None? { return Some(why), pushed; }
        pushed := pushed + [push.value];
      } else {
        return Some(InvalidRule), pushed;
      }
      if j < 0 { return None, pushed; }
    }
  }

  lemma SubjectStart(nidOf: string -> Option<nat>, name: seq<Entry>)
    ensures SubjectOf(nidOf, [], name) == []
  {}

  /** The policy loop of do_body. */
  method CheckPolicy(nidOf: string -> Option<nat>, policy: seq<PolicyItem>, name: seq<Entry>, ca: seq<Entry>)
    returns (verdict: Verdict)
    // Success exactly when no item refuses, and then the subject is the declared one.
    ensures verdict.Subject? <==> Accepted(nidOf, policy, name, ca)
    ensures verdict.Subject? <==> forall i :: 0 <= i < |policy| ==> ItemPasses(nidOf, policy[i], name, ca)
    ensures verdict.Subject? ==> verdict.entries == SubjectOf(nidOf, policy, name)
    // Failure names the first item that refuses, and why.
    ensures verdict.Refused? ==>
      verdict.item < |policy| && ItemRefusal(nidOf, policy[verdict.item], name, ca) == Some(verdict.why)
    ensures verdict.Refused? ==> ItemRefuses(nidOf, policy[verdict.item], name, ca, verdict.why)
    ensures verdict.Refused? ==>
      forall i :: 0 <= i < verdict.item && i < |policy| ==> ItemRefusal(nidOf, policy[i], name, ca) == None
  {
    AcceptedIff(nidOf, policy, name, ca);
    hide RefusalOf, OfType, ItemPasses, ItemRefuses, SubjectOf;
    SubjectStart(nidOf, name);
    var subject := [];
    var i := 0;
    while i < |policy|
      invariant 0 <= i <= |policy| && subject == SubjectOf(nidOf, policy[..i], name)
      invariant forall k :: 0 <= k < i ==> ItemRefusal(nidOf, policy[k], name, ca) == None
    {
      var cv := policy[i];
      var nid := nidOf(cv.name);
      ItemIff(nidOf, cv, name, ca);
      if nid.None? {
        return Refused(i, UnknownType);
      }
      var refusal, pushed := CheckItem(cv.rule, nid.value, name, ca);
      if refusal.Some? {
        return Refused(i, refusal.value);
      }
      SubjectAppend(nidOf, policy[..i], cv, name);
      assert policy[..i + 1] == policy[..i] + [cv];
      subject := subject + pushed;
      i := i + 1;
    }
    assert policy[..i] == policy;
    return Subject(subject);
  }

  ghost predicate Accepted(nidOf: string -> Option<nat>, policy: seq<PolicyItem>, name: seq<Entry>, ca: seq<Entry>)
  {
    forall i :: 0 <= i < |policy| ==> ItemRefusal(nidOf, policy[i], name, ca) == None
  }

  // ---- the policy over plain membership ----

  ghost predicate Occurs(name: seq<Entry>, obj: nat)
  {
    exists e :: e in name && e.obj == obj
  }

  /** The item lets the request pass: an optional type in any case, a supplied one if it occurs. */
  ghost predicate ItemPasses(nidOf: string -> Option<nat>, item: PolicyItem, name: seq<Entry>, ca: seq<Entry>)
  {
    nidOf(item.name).Some? &&
    var obj := nidOf(item.name).value;
    item.rule == "optional" ||
    (item.rule == "supplied" && Occurs(name, obj)) ||
    (item.rule == "match" && Occurs(name, obj) && forall e :: e in name && e.obj == obj ==> e in ca)
  }

  /** Why the item refuses it. */
  ghost predicate ItemRefuses(nidOf: string -> Option<nat>, item: PolicyItem, name: seq<Entry>, ca: seq<Entry>, why: Refusal)
  {
    if nidOf(item.name).None? then why == UnknownType
    else
      var obj := nidOf(item.name).value;
      match why
      case UnknownType => false
      case InvalidRule => item.rule != "optional" && item.rule != "supplied" && item.rule != "match"
      case Missing => (item.rule == "supplied" || item.rule == "match") && !Occurs(name, obj)
      case NotInCa => item.rule == "match" && Occurs(name, obj) && !Occurs(ca, obj)
      case Differs => item.rule == "match" && Occurs(ca, obj) && exists e :: e in name && e.obj == obj && e !in ca
  }

  lemma NoneOfType(name: seq<Entry>, obj: nat)
    ensures OfType(name, obj) == [] <==> !Occurs(name, obj)
  {
    var r := OfType(name, obj);
    if r != [] { assert r[0] in r; }
    hide OfType;
    if e :| e in name && e.obj == obj { assert e in r; }
  }

  lemma ItemIff(nidOf: string -> Option<nat>, item: PolicyItem, name: seq<Entry>, ca: seq<Entry>)
    ensures ItemRefusal(nidOf, item, name, ca) == None <==> ItemPasses(nidOf, item, name, ca)
    ensures forall why :: ItemRefusal(nidOf, item, name, ca) == Some(why) <==> ItemRefuses(nidOf, item, name, ca, why)
  {
    if nidOf(item.name).Some? {
      var obj := nidOf(item.name).value;
      NoneOfType(name, obj);
      NoneOfType(ca, obj);
      hide OfType;
      if item.rule == "match" && OfType(ca, obj) == [] && OfType(name, obj) != [] {
        var e :| e in name && e.obj == obj;
        assert e !in ca;
      }
    }
  }

  /** A request is accepted exactly if every item lets it pass. */
  lemma AcceptedIff(nidOf: string -> Option<nat>, policy: seq<PolicyItem>, name: seq<Entry>, ca: seq<Entry>)
    ensures Accepted(nidOf, policy, name, ca) <==>
      forall i :: 0 <= i < |policy| ==> ItemPasses(nidOf, policy[i], name, ca)
  {
    hide ItemRefusal, ItemPasses, ItemRefuses;
    forall i | 0 <= i < |policy|
      ensures ItemRefusal(nidOf, policy[i], name, ca) == None <==> ItemPasses(nidOf, policy[i], name, ca)
    {
      ItemIff(nidOf, policy[i], name, ca);
    }
  }

  /** The subject of a longer policy ends with the entries of its last type. */
  lemma SubjectAppend(nidOf: string -> Option<nat>, policy: seq<PolicyItem>, item: PolicyItem, name: seq<Entry>)
    ensures SubjectOf(nidOf, [], name) == []
    ensures SubjectOf(nidOf, policy + [item], name) ==
      if nidOf(item.name).Some? then SubjectOf(nidOf, policy, name) + OfType(name, nidOf(item.name).value)
      else SubjectOf(nidOf, policy, name)
  {
    assert (policy + [item])[..|policy|] == policy;
    assert SubjectOf(nidOf, policy, name) + [] == SubjectOf(nidOf, policy, name);
  }

  /** The entries of a type are those of the name in the name's order. */
  lemma OfTypeAppend(name: seq<Entry>, e: Entry, obj: nat)
    ensures OfType([], obj) == []
    ensures OfType(name + [e], obj) == if e.obj == obj then OfType(name, obj) + [e] else OfType(name, obj)
  {
    assert (name + [e])[..|name|] == name;
  }

  /** Nothing in the subject was absent from the request. */
  lemma {:induction false} SubjectFromRequest(nidOf: string -> Option<nat>, policy: seq<PolicyItem>, name: seq<Entry>,
                                             e: Entry)
    requires e in SubjectOf(nidOf, policy, name)
    ensures e in name
  {
    if policy != [] && e in SubjectOf(nidOf, policy[..|policy| - 1], name) {
      SubjectFromRequest(nidOf, policy[..|policy| - 1], name, e);
    }
  }

  /** All request entries of an item's type are in the subject. */
  lemma {:induction false} SubjectHas(nidOf: string -> Option<nat>, policy: seq<PolicyItem>, name: seq<Entry>, i: nat,
                                     e: Entry)
    requires i < |policy| && e in name && nidOf(policy[i].name) == Some(e.obj)
    ensures e in SubjectOf(nidOf, policy, name)
  {
    var k := |policy| - 1;
    if i < k { SubjectHas(nidOf, policy[..k], name, i, e); }
  }

  /** In an accepted request every supplied or matched type occurs in the subject. */
  lemma AcceptedOccurs(nidOf: string -> Option<nat>, policy: seq<PolicyItem>, name: seq<Entry>, ca: seq<Entry>, i: nat)
    returns (e: Entry)
    requires Accepted(nidOf, policy, name, ca) && i < |policy| && policy[i].rule != "optional"
    ensures e in SubjectOf(nidOf, policy, name) && nidOf(policy[i].name) == Some(e.obj)
  {
    assert ItemRefusal(nidOf, policy[i], name, ca) == None;
    var entries := OfType(name, nidOf(policy[i].name).value);
    e := entries[0];
    assert e in entries;
    SubjectHas(nidOf, policy, name, i, e);
  }

  /** In an accepted request every entry of a matched type is one of the CA's. */
  lemma AcceptedMatches(nidOf: string -> Option<nat>, policy: seq<PolicyItem>, name: seq<Entry>, ca: seq<Entry>, i: nat,
                        e: Entry)
    requires Accepted(nidOf, policy, name, ca) && i < |policy| && policy[i].rule == "match"
    requires e in name && nidOf(policy[i].name) == Some(e.obj)
    ensures e in ca
  {
    assert ItemRefusal(nidOf, policy[i], name, ca) == None;
    assert e in OfType(name, e.obj);
  }

  // ---- e-mail removal ----

  function WithoutType(name: seq<Entry>, obj: nat): seq<Entry>
  {
    if name == [] then []
    else (if name[0].obj == obj then [] else [name[0]]) + WithoutType(name[1..], obj)
  }

  lemma WithoutFirst(e: Entry, rest: seq<Entry>, obj: nat)
    ensures WithoutType([e] + rest, obj) == (if e.obj == obj then [] else [e]) + WithoutType(rest, obj)
  {
    assert ([e] + rest)[1..] == rest;
  }

  lemma {:induction false} WithoutAppend(a: seq<Entry>, b: seq<Entry>, obj: nat)
    ensures WithoutType(a + b, obj) == WithoutType(a, obj) + WithoutType(b, obj)
  {
    if a == [] {
      assert a + b == b;
    } else {
      hide WithoutType;
      assert a == [a[0]] + a[1..] && a + b == [a[0]] + (a[1..] + b);
      WithoutFirst(a[0], a[1..], obj);
      WithoutFirst(a[0], a[1..] + b, obj);
      WithoutAppend(a[1..], b, obj);
    }
  }

  lemma {:induction false} WithoutNone(name: seq<Entry>, obj: nat)
    requires forall k :: 0 <= k < |name| ==> name[k].obj != obj
    ensures WithoutType(name, obj) == name
  {
    if name != [] { WithoutNone(name[1..], obj); }
  }

  /** The removal loop: deleting one entry steps the search index back. */
  method RemoveType(name: seq<Entry>, obj: nat) returns (dn: seq<Entry>)
    ensures dn == WithoutType(name, obj)
  {
    dn := name;
    var i := -1;
    while true
      invariant -1 <= i < |dn| && WithoutType(dn, obj) == WithoutType(name, obj)
      invariant forall k :: 0 <= k <= i ==> dn[k].obj != obj
      decreases |dn|
    {
      i := GetIndexByObj(dn, obj, i);
      if i < 0 {
        WithoutNone(dn, obj);
        return;
      }
      var front, back := dn[..i], dn[i + 1..];
      assert dn == front + [dn[i]] + back;
      WithoutAppend(front, [dn[i]] + back, obj);
      WithoutAppend([dn[i]], back, obj);
      WithoutAppend(front, back, obj);
      assert front + ([dn[i]] + back) == front + [dn[i]] + back;
      dn := front + back;
      i := i - 1;
    }
  }
}
