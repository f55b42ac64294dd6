/** The tag part of the host mass update (ui/hosts.php).

    Tags are made unique through a PHP array indexed by "name:value".  Such an array keeps the
    position of the first entry with a key and the value of the last; it is the list built by `Put`
    here.  Names may contain a colon, so two different tags can share a key. */
module HostTags {
  datatype Tag = Tag(tag: string, value: string)

  datatype Action = Add | Replace | Remove

  datatype Host = Host(hostid: nat, tags: seq<Tag>)

  function Key(t: Tag): string { t.tag + ":" + t.value }

  /** Different tags of the list have different keys. */
  predicate Injective(l: seq<Tag>) { forall a, b :: a in l && b in l && Key(a) == Key(b) ==> a == b }

  predicate DistinctKeys(l: seq<Tag>) { forall i, j :: 0 <= i < j < |l| ==> Key(l[i]) != Key(l[j]) }

  predicate NoDuplicates(l: seq<Tag>) { forall i, j :: 0 <= i < j < |l| ==> l[i] != l[j] }

  /** `$unique_tags[key] = tag` */
  function Put(u: seq<Tag>, t: Tag): seq<Tag> {
    if u == [] then [t]
    else if Key(u[0]) == Key(t) then [t] + u[1..]
    else [u[0]] + Put(u[1..], t)
  }

  function Unique(l: seq<Tag>): seq<Tag> {
    if l == [] then [] else Put(Unique(l[..|l| - 1]), l[|l| - 1])
  }

  /** The tags of `a` that are not in `b`, in order. */
  function Minus(a: seq<Tag>, b: seq<Tag>): seq<Tag> {
    if a == [] then [] else (if a[0] in b then [] else [a[0]]) + Minus(a[1..], b)
  }

  /** What one host's tags become. */
  function Updated(action: Action, hostTags: seq<Tag>, requested: seq<Tag>): seq<Tag> {
    match action
    case Add => if requested == [] then hostTags else Unique(hostTags + Unique(requested))
    case Replace => Unique(requested)
    case Remove => Minus(hostTags, Unique(requested))
  }

  // ----- the loops

  method MakeUnique(tags: seq<Tag>) returns (uniqueTags: seq<Tag>)
    ensures uniqueTags == Unique(tags)
  {
    uniqueTags := [];
    for i := 0 to |tags|
      invariant uniqueTags == Unique(tags[..i])
    {
      assert tags[..i + 1][..i] == tags[..i];
      uniqueTags := Put(uniqueTags, tags[i]);
    }
    assert tags[..|tags|] == tags;
  }

  method RemoveRequested(hostTags: seq<Tag>, tags: seq<Tag>) returns (diffTags: seq<Tag>)
    ensures diffTags == Minus(hostTags, tags)
  {
    diffTags := [];
    label hostTag: for i := 0 to |hostTags|
      invariant diffTags == Minus(hostTags[..i], tags)
    {
      assert hostTags[..i + 1] == hostTags[..i] + [hostTags[i]];
      MinusAppend(hostTags[..i], [hostTags[i]], tags);
      for j := 0 to |tags|
        invariant hostTags[i] !in tags[..j]
      {
        if hostTags[i].tag == tags[j].tag && hostTags[i].value == tags[j].value {
          assert hostTags[i] in tags;
          continue hostTag;
        }
      }
      assert tags[..|tags|] == tags;
      diffTags := diffTags + [hostTags[i]];
    }
    assert hostTags[..|hostTags|] == hostTags;
  }

  /** One host; `tags` are the requested tags made unique. */
  method UpdateTags(hostTags: seq<Tag>, action: Action, tags: seq<Tag>, ghost requested: seq<Tag>)
    returns (updated: seq<Tag>)
    requires tags == Unique(requested)
    ensures updated == Updated(action, hostTags, requested)
  {
    UniqueEmpty(requested);
    updated := hostTags;
    if tags != [] && action == Add {
      updated := MakeUnique(hostTags + tags);
    } else if action == Replace {
      updated := tags;
    } else if tags != [] && action == Remove {
      updated := RemoveRequested(hostTags, tags);
    } else {
      MinusNothing(hostTags);
    }
  }

  method MassUpdateTags(hosts: array<Host>, action: Action, requested: seq<Tag>)
    modifies hosts
    ensures forall i :: 0 <= i < hosts.Length ==>
      hosts[i] == old(hosts[i]).(tags := Updated(action, old(hosts[i].tags), requested))
  {
    hide Updated, Unique;
    var tags := MakeUnique(requested);
    for i := 0 to hosts.Length
      invariant forall k :: 0 <= k < i ==>
        hosts[k] == old(hosts[k]).(tags := Updated(action, old(hosts[k].tags), requested))
      invariant forall k :: i <= k < hosts.Length ==> hosts[k] == old(hosts[k])
    {
      var updated := UpdateTags(hosts[i].tags, action, tags, requested);
      hosts[i] := hosts[i].(tags := updated);
    }
  }

  // ----- unique lists

  /** `x` is in `l` and no later tag of `l` has its key. */
  predicate IsLast(l: seq<Tag>, x: Tag) {
    l != [] && (x == l[|l| - 1] || (Key(x) != Key(l[|l| - 1]) && IsLast(l[..|l| - 1], x)))
  }

  lemma {:induction false} PutIs(u: seq<Tag>, t: Tag)
    requires DistinctKeys(u)
    ensures DistinctKeys(Put(u, t))
    ensures forall y :: y in Put(u, t) <==> y == t || (y in u && Key(y) != Key(t))
  {
    if u != [] {
      assert u == [u[0]] + u[1..];
      assert forall y :: y in u[1..] ==> Key(y) != Key(u[0]);
      if Key(u[0]) != Key(t) {
        PutIs(u[1..], t);
        var r := Put(u[1..], t);
        forall i | 0 <= i < |r| ensures Key(r[i]) != Key(u[0]) { assert r[i] in r; }
      }
    }
  }

  /** The unique list holds, once per key, the last tag with that key. */
  lemma {:induction false} UniqueIs(l: seq<Tag>)
    ensures DistinctKeys(Unique(l))
    ensures forall x :: x in Unique(l) <==> IsLast(l, x)
  {
    if l != [] {
      UniqueIs(l[..|l| - 1]);
      PutIs(Unique(l[..|l| - 1]), l[|l| - 1]);
    }
  }

  lemma {:induction false} LastExists(l: seq<Tag>, t: Tag) returns (x: Tag)
    requires t in l
    ensures IsLast(l, x) && Key(x) == Key(t)
  {
    var n := |l| - 1;
    assert l == l[..n] + [l[n]];
    if Key(l[n]) == Key(t) { return l[n]; }
    x := LastExists(l[..n], t);
  }

  lemma {:induction false} LastIn(l: seq<Tag>, x: Tag)
    requires IsLast(l, x)
    ensures x in l
  {
    var n := |l| - 1;
    assert l == l[..n] + [l[n]];
    if x != l[n] { LastIn(l[..n], x); }
  }

  lemma UniqueEmpty(l: seq<Tag>)
    ensures Unique(l) == [] <==> l == []
  {
    if l != [] { PutNonEmpty(Unique(l[..|l| - 1]), l[|l| - 1]); }
  }

  lemma PutNonEmpty(u: seq<Tag>, t: Tag)
    ensures Put(u, t) != []
  {
  }

  /** Making a list unique keeps all its tags exactly when no two different tags share a key. */
  lemma UniqueKeepsAll(l: seq<Tag>)
    ensures forall x :: x in Unique(l) ==> x in l
    ensures (forall x :: x in l ==> x in Unique(l)) <==> Injective(l)
  {
    UniqueIs(l);
    forall x | x in Unique(l) ensures x in l { LastIn(l, x); }
    if Injective(l) {
      forall x | x in l ensures x in Unique(l) {
        var y := LastExists(l, x);
        LastIn(l, y);
      }
    }
    if forall x :: x in l ==> x in Unique(l) {
      forall a, b | a in l && b in l && Key(a) == Key(b) ensures a == b {
        SameKeySame(Unique(l), a, b);
      }
    }
  }

  lemma SameKeySame(u: seq<Tag>, a: Tag, b: Tag)
    requires DistinctKeys(u) && a in u && b in u && Key(a) == Key(b)
    ensures a == b
  {
    var i :| 0 <= i < |u| && u[i] == a;
    var j :| 0 <= j < |u| && u[j] == b;
    assert i == j;
  }

  // ----- differences

  lemma {:induction false} MinusIs(a: seq<Tag>, b: seq<Tag>)
    ensures forall x :: x in Minus(a, b) <==> x in a && x !in b
    ensures NoDuplicates(a) ==> NoDuplicates(Minus(a, b))
  {
    if a != [] {
      MinusIs(a[1..], b);
      assert a == [a[0]] + a[1..];
      assert NoDuplicates(a) ==> a[0] !in a[1..] && NoDuplicates(a[1..]);
    }
  }

  lemma MinusCons(x: Tag, rest: seq<Tag>, b: seq<Tag>)
    ensures Minus([x] + rest, b) == (if x in b then [] else [x]) + Minus(rest, b)
  {
    assert ([x] + rest)[1..] == rest;
  }

  lemma {:induction false} MinusAppend(a: seq<Tag>, c: seq<Tag>, b: seq<Tag>)
    ensures Minus(a + c, b) == Minus(a, b) + Minus(c, b)
  {
    if a == [] {
      assert a + c == c;
    } else {
      hide Minus;
      var x, rest := a[0], a[1..];
      MinusAppend(rest, c, b);
      MinusCons(x, rest, b);
      MinusCons(x, rest + c, b);
      assert a == [x] + rest && a + c == [x] + (rest + c);
    }
  }

  lemma {:induction false} MinusNothing(a: seq<Tag>)
    ensures Minus(a, []) == a
  {
    if a != [] { MinusNothing(a[1..]); }
  }

  lemma {:induction false} MinusAll(a: seq<Tag>, b: seq<Tag>)
    requires forall x :: x in a ==> x in b
    ensures Minus(a, b) == []
  {
    if a != [] { MinusAll(a[1..], b); }
  }

  // ----- keys

  /** With colon-free names the key determines the tag. */
  lemma ColonFreeInjective(l: seq<Tag>)
    requires forall t :: t in l ==> ':' !in t.tag
    ensures Injective(l)
  {
    forall a, b | a in l && b in l && Key(a) == Key(b) ensures a == b { SplitKey(a, b); }
  }

  lemma SplitKey(a: Tag, b: Tag)
    requires ':' !in a.tag && ':' !in b.tag && Key(a) == Key(b)
    ensures a == b
  {
    var k := Key(a);
    assert k[|a.tag|] == ':' && k[|b.tag|] == ':';
    assert forall i :: 0 <= i < |a.tag| ==> k[i] == a.tag[i] && k[i] != ':';
    assert forall i :: 0 <= i < |b.tag| ==> k[i] == b.tag[i] && k[i] != ':';
    assert |a.tag| == |b.tag|;
    assert a.tag == k[..|a.tag|] && b.tag == k[..|b.tag|];
    assert a.value == k[|a.tag| + 1..] && b.value == k[|b.tag| + 1..];
  }

  /** With a colon in a name a tag can push another one out. */
  lemma ColonCollision()
    ensures Updated(Add, [Tag("a", "b:c")], [Tag("a:b", "c")]) == [Tag("a:b", "c")]
  {
    var x, y := Tag("a", "b:c"), Tag("a:b", "c");
    assert Key(x) == "a:b:c" == Key(y);
    assert [y][..0] == [] && Unique([y]) == [y];
    assert [x][..0] == [] && Unique([x]) == [x];
    assert [x] + [y] == [x, y] && [x, y][..1] == [x];
    assert Unique([x, y]) == Put([x], y) == [y];
  }

  /** A later tag takes the place of an earlier one with its key. */
  lemma ReplacedInPlace()
    ensures Unique([Tag("a", "b:c"), Tag("x", "y"), Tag("a:b", "c")]) == [Tag("a:b", "c"), Tag("x", "y")]
  {
    var p, q, r := Tag("a", "b:c"), Tag("x", "y"), Tag("a:b", "c");
    assert [p, q, r][..2] == [p, q] && [p, q][..1] == [p] && [p][..0] == [];
    assert Key(p) == "a:b:c" == Key(r) && Key(q) == "x:y";
    assert [p][1..] == [] && [p, q][1..] == [q];
    assert Unique([]) == [] && Unique([p]) == Put([], p) == [p];
    assert Unique([p, q]) == Put([p], q) == [p] + Put([], q) == [p, q];
    assert Unique([p, q, r]) == Put([p, q], r) == [r] + [q];
  }

  // ----- what the three actions do

  /** ADD gives a list without repeated keys; it is exactly the union of the host's and the requested
      tags when and only when nothing is requested or no two of all these tags share a key. */
  lemma AddIsUnion(hostTags: seq<Tag>, requested: seq<Tag>)
    ensures requested != [] ==> DistinctKeys(Updated(Add, hostTags, requested))
    ensures (forall x :: x in Updated(Add, hostTags, requested) <==>
      x in hostTags || x in requested)
       <==> requested == [] || Injective(hostTags + requested)
  {
    var all := hostTags + Unique(requested);
    UniqueIs(all);
    UniqueKeepsAll(all);
    UniqueKeepsAll(requested);
    if requested != [] {
      if Injective(hostTags + requested) {
        assert Injective(requested) && Injective(all);
        forall x ensures x in Unique(all) <==> x in hostTags || x in requested {
          assert x in all <==> x in hostTags || x in Unique(requested);
        }
      }
      if forall x :: x in Unique(all) <==> x in hostTags || x in requested {
        forall a, b | a in hostTags + requested && b in hostTags + requested && Key(a) == Key(b) ensures a == b {
          SameKeySame(Unique(all), a, b);
        }
      }
    }
  }

  /** REMOVE keeps the order of the tags that stay.  It removes every requested tag the host has when
      and only when none of them is followed, among the requested tags, by another with its key. */
  lemma RemoveIsDifference(hostTags: seq<Tag>, requested: seq<Tag>)
    ensures forall x :: x in Updated(Remove, hostTags, requested) <==>
      x in hostTags && !IsLast(requested, x)
    ensures Updated(Remove, hostTags, requested) == Minus(hostTags, requested)
       <==> forall x :: x in hostTags && x in requested ==> IsLast(requested, x)
  {
    UniqueIs(requested);
    MinusIs(hostTags, Unique(requested));
    MinusIs(hostTags, requested);
    forall x | IsLast(requested, x) ensures x in requested { LastIn(requested, x); }
    if forall x :: x in hostTags && x in requested ==> IsLast(requested, x) {
      MinusSame(hostTags, Unique(requested), requested);
    }
  }

  /** REPLACE leaves, for each key, the last tag requested with it, and nothing of the host's own tags; it
      is exactly the request when and only when no two different requested tags share a key. */
  lemma ReplaceIsRequest(hostTags: seq<Tag>, requested: seq<Tag>)
    ensures forall x :: x in Updated(Replace, hostTags, requested) <==>
      IsLast(requested, x)
    ensures DistinctKeys(Updated(Replace, hostTags, requested))
    ensures (forall x :: x in Updated(Replace, hostTags, requested) <==>
      x in requested) <==> Injective(requested)
  {
    UniqueIs(requested);
    UniqueKeepsAll(requested);
  }

  /** Without a request ADD and REMOVE leave the list as it is, and REPLACE clears it. */
  lemma NothingRequested(hostTags: seq<Tag>)
    ensures Updated(Add, hostTags, []) == Updated(Remove, hostTags, []) == hostTags
    ensures Updated(Replace, hostTags, []) == []
  {
    MinusNothing(hostTags);
  }

  lemma {:induction false} MinusSame(a: seq<Tag>, b: seq<Tag>, c: seq<Tag>)
    requires forall x :: x in a ==> (x in b <==> x in c)
    ensures Minus(a, b) == Minus(a, c)
  {
    if a != [] { MinusSame(a[1..], b, c); }
  }

  lemma {:induction false} UniqueOfDistinct(l: seq<Tag>)
    requires DistinctKeys(l)
    ensures Unique(l) == l
  {
    if l != [] {
      UniqueOfDistinct(l[..|l| - 1]);
      PutNew(l[..|l| - 1], l[|l| - 1]);
    }
  }

  lemma {:induction false} PutNew(u: seq<Tag>, t: Tag)
    requires forall x :: x in u ==> Key(x) != Key(t)
    ensures Put(u, t) == u + [t]
  {
    if u != [] { PutNew(u[1..], t); }
  }

  lemma {:induction false} PutAgain(u: seq<Tag>, t: Tag)
    requires DistinctKeys(u) && t in u
    ensures Put(u, t) == u
  {
    if Key(u[0]) == Key(t) {
      SameKeySame(u, u[0], t);
    } else {
      assert u == [u[0]] + u[1..];
      PutAgain(u[1..], t);
    }
  }

  lemma {:induction false} UniqueAgain(u: seq<Tag>, t: seq<Tag>)
    requires DistinctKeys(u) && forall x :: x in t ==> x in u
    ensures Unique(u + t) == u
  {
    hide Put, Key;
    if t == [] {
      UniqueOfDistinct(u);
      assert u + t == u;
    } else {
      var n := |t| - 1;
      UniqueAgain(u, t[..n]);
      assert (u + t)[..|u + t| - 1] == u + t[..n];
      PutAgain(u, t[n]);
    }
  }

  lemma {:induction false} LastOfSuffix(l: seq<Tag>, t: seq<Tag>, x: Tag)
    requires DistinctKeys(t) && x in t
    ensures IsLast(l + t, x)
  {
    var n := |t| - 1;
    assert t == t[..n] + [t[n]];
    assert (l + t)[..|l + t| - 1] == l + t[..n];
    if x != t[n] {
      assert Key(x) != Key(t[n]);
      LastOfSuffix(l, t[..n], x);
    }
  }

  /** Doing the same update twice is doing it once, whatever the keys. */
  lemma UpdateTwice(action: Action, hostTags: seq<Tag>, requested: seq<Tag>)
    ensures Updated(action, Updated(action, hostTags, requested), requested) == Updated(action, hostTags, requested)
  {
    var t := Unique(requested);
    UniqueIs(requested);
    match action
    case Add =>
      if requested != [] {
        UniqueIs(hostTags + t);
        forall x | x in t ensures x in Unique(hostTags + t) { LastOfSuffix(hostTags, t, x); }
        UniqueAgain(Unique(hostTags + t), t);
      }
    case Replace =>
    case Remove =>
      MinusIs(hostTags, t);
      MinusTwice(Minus(hostTags, t), t);
  }

  lemma {:induction false} MinusTwice(a: seq<Tag>, b: seq<Tag>)
    requires forall x :: x in a ==> x !in b
    ensures Minus(a, b) == a
  {
    if a != [] { MinusTwice(a[1..], b); }
  }

  /** Without shared keys ADD appends the requested tags the host does not have yet. */
  lemma {:induction false} UnionAppends(h: seq<Tag>, t: seq<Tag>)
    requires DistinctKeys(h) && DistinctKeys(t) && Injective(h + t)
    ensures Unique(h + t) == h + Minus(t, h)
  {
    hide Key, Put;
    if t == [] {
      UniqueOfDistinct(h);
      assert h + t == h;
    } else {
      var n := |t| - 1;
      var x := t[n];
      assert t == t[..n] + [x];
      assert Injective(h + t[..n]);
      UnionAppends(h, t[..n]);
      assert (h + t)[..|h + t| - 1] == h + t[..n];
      MinusAppend(t[..n], [x], h);
      MinusIs(t[..n], h);
      UniqueIs(h + t[..n]);
      if x in h {
        PutAgain(h + Minus(t[..n], h), x);
      } else {
        forall y | y in h + Minus(t[..n], h) ensures Key(y) != Key(x) { assert y in h + t; }
        PutNew(h + Minus(t[..n], h), x);
      }
    }
  }

  /** Adding tags and then removing the same tags is removing them, for a host without repeated tags,
      exactly when nothing is requested or no two of the host's tags and the tags left of the request once
      it is made unique share a key. */
  lemma AddThenRemove(hostTags: seq<Tag>, requested: seq<Tag>)
    requires NoDuplicates(hostTags)
    ensures Updated(Remove, Updated(Add, hostTags, requested), requested) == Updated(Remove, hostTags, requested)
       <==> requested == [] || Injective(hostTags + Unique(requested))
  {
    var t := Unique(requested);
    var all := Unique(hostTags + t);
    UniqueIs(requested);
    UniqueIs(hostTags + t);
    MinusIs(hostTags, t);
    MinusIs(all, t);
    if requested != [] {
      if Injective(hostTags + t) {
        assert Injective(hostTags);
        assert DistinctKeys(hostTags);
        UnionAppends(hostTags, t);
        MinusAppend(hostTags, Minus(t, hostTags), t);
        MinusIs(t, hostTags);
        MinusAll(Minus(t, hostTags), t);
      }
      if Minus(all, t) == Minus(hostTags, t) {
        forall a, b | a in hostTags + t && b in hostTags + t && Key(a) == Key(b) ensures a == b {
          KeptWhenUndone(hostTags, t, a);
          KeptWhenUndone(hostTags, t, b);
          SameKeySame(all, a, b);
        }
      }
    }
  }

  lemma KeptWhenUndone(h: seq<Tag>, t: seq<Tag>, x: Tag)
    requires DistinctKeys(t) && x in h + t
    requires Minus(Unique(h + t), t) == Minus(h, t)
    ensures x in Unique(h + t)
  {
    UniqueIs(h + t);
    if x in t {
      LastOfSuffix(h, t, x);
    } else {
      MinusIs(h, t);
      MinusIs(Unique(h + t), t);
      assert x in Minus(h, t);
    }
  }
}
