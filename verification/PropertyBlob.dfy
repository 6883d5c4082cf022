/**
 The packed properties of a node: fixed-size values and length-prefixed spans in one byte buffer, which
 every edit rebuilds.  The buffer refines a list of distinctly named values.
 */
module PropertyBlob {
  import opened TreeModel
  import Text
  import opened Chunks

  /** The size of a fixed type, 0 for a type of variable size. */
  function SizeOf(typeName: string): (n: nat)
    ensures n == 0 || n == 1 || n == 4 || n == 8
  {
    if typeName == "int64" || typeName == "uint64" || typeName == "double" then 8
    else if typeName == "float" then 4
    else if typeName == "bool" then 1
    else 0
  }

  /** A named value: the bytes it occupies, without the length prefix of a span. */
  datatype Property = Property(info: PropertyInfo, data: Bytes)

  predicate Sound(p: Property) {
    if SizeOf(p.info.typeName) > 0 then |p.data| == SizeOf(p.info.typeName) else |p.data| < Text.TWO_32
  }

  function Encoded(p: Property): Bytes {
    if SizeOf(p.info.typeName) > 0 then p.data else LittleEndian(|p.data|, 4) + p.data
  }

  function EncodedAll(ps: seq<Property>): Bytes {
    if ps == [] then "" else EncodedAll(ps[..|ps| - 1]) + Encoded(ps[|ps| - 1])
  }

  function Infos(ps: seq<Property>): (r: seq<PropertyInfo>)
    ensures |r| == |ps| && forall i :: 0 <= i < |r| ==> r[i] == ps[i].info
  {
    seq(|ps|, i requires 0 <= i < |ps| => ps[i].info)
  }

  predicate DistinctNames(ps: seq<Property>) {
    forall i, j :: 0 <= i < j < |ps| ==> ps[i].info.name != ps[j].info.name
  }

  ghost predicate WellFormed(ps: seq<Property>) {
    DistinctNames(ps) && forall i :: 0 <= i < |ps| ==> Sound(ps[i])
  }

  lemma {:induction false} EncodedAppend(a: seq<Property>, b: seq<Property>)
    ensures EncodedAll(a + b) == EncodedAll(a) + EncodedAll(b)
    decreases |b|
  {
    hide Encoded;
    if b == [] {
      assert a + b == a;
    } else {
      var c, init, last := a + b, b[..|b| - 1], b[|b| - 1];
      EncodedAppend(a, init);
      assert c[..|c| - 1] == a + init && c[|c| - 1] == last;
      assert EncodedAll(c) == EncodedAll(a + init) + Encoded(last) && EncodedAll(b) == EncodedAll(init) + Encoded(last);
    }
  }

  lemma EncodedOne(p: Property)
    ensures EncodedAll([p]) == Encoded(p)
  {
    assert [p][..0] == [];
  }

  lemma EncodedBody(p: Property)
    ensures if SizeOf(p.info.typeName) > 0 then Encoded(p) == p.data
            else |Encoded(p)| >= 4 && Encoded(p)[4..] == p.data
  {
    hide LittleEndian;
  }

  lemma EncodedTwo(p: Property, q: Property)
    ensures EncodedAll([p, q]) == Encoded(p) + Encoded(q)
  {
    assert [p, q] == [p] + [q];
    EncodedAppend([p], [q]);
    EncodedOne(p);
    EncodedOne(q);
  }

  // ---- reading the buffer ----

  /** Where a property lies: its first byte and its whole extent, with the prefix of a span. */
  datatype Meta = Meta(offset: nat, span: nat, variable: bool)

  /** One step of the layout; None for a span that the buffer cuts off. */
  function MetaAt(info: PropertyInfo, data: Bytes, offset: nat): Option<Meta> {
    var size := SizeOf(info.typeName);
    if size > 0 then Some(Meta(offset, size, false))
    else if offset + 4 > |data| then None
    else
      var span := 4 + LittleEndianValue(data[offset..offset + 4]);
      if offset + span > |data| then None else Some(Meta(offset, span, true))
  }

  lemma FourByteLength(n: nat)
    requires n < Text.TWO_32
    ensures LittleEndianValue(LittleEndian(n, 4)) == n
  {
    assert Pow256(4) == 256 * (256 * (256 * (256 * Pow256(0))));
    LittleEndianRoundTrip(n, 4);
  }

  /** In a packed buffer the layout step finds each property behind the ones before it. */
  lemma MetaOfPacked(p: Property, before: Bytes, after: Bytes)
    requires Sound(p)
    ensures MetaAt(p.info, before + Encoded(p) + after, |before|) ==
            Some(Meta(|before|, |Encoded(p)|, SizeOf(p.info.typeName) == 0))
  {
    var data := before + Encoded(p) + after;
    if SizeOf(p.info.typeName) == 0 {
      FourByteLength(|p.data|);
      hide LittleEndian, LittleEndianValue;
      assert data[|before|..|before| + 4] == LittleEndian(|p.data|, 4);
    }
  }

  function StartOf(ps: seq<Property>, i: nat): nat
    requires i <= |ps|
  {
    |EncodedAll(ps[..i])|
  }

  function MetaOf(ps: seq<Property>, i: nat): Meta
    requires i < |ps|
  {
    Meta(StartOf(ps, i), |Encoded(ps[i])|, SizeOf(ps[i].info.typeName) == 0)
  }

  lemma PackedAround(ps: seq<Property>, i: nat)
    requires i < |ps|
    ensures EncodedAll(ps) == EncodedAll(ps[..i]) + Encoded(ps[i]) + EncodedAll(ps[i + 1..])
    ensures StartOf(ps, i + 1) == StartOf(ps, i) + |Encoded(ps[i])|
  {
    hide Encoded, EncodedAll;
    assert ps == ps[..i] + [ps[i]] + ps[i + 1..] && ps[..i + 1] == ps[..i] + [ps[i]];
    EncodedAppend(ps[..i] + [ps[i]], ps[i + 1..]);
    EncodedAppend(ps[..i], [ps[i]]);
    EncodedOne(ps[i]);
  }

  lemma PackedAt(ps: seq<Property>, i: nat)
    requires i < |ps|
    ensures StartOf(ps, i) + |Encoded(ps[i])| == StartOf(ps, i + 1) <= |EncodedAll(ps)|
    ensures EncodedAll(ps)[StartOf(ps, i)..StartOf(ps, i) + |Encoded(ps[i])|] == Encoded(ps[i])
  {
    hide Encoded, EncodedAll;
    PackedAround(ps, i);
  }

  /** Every one of the first `n` names, and no other, leads to where its property lies. */
  ghost predicate Describes(layout: map<string, Meta>, ps: seq<Property>, n: nat)
    requires n <= |ps|
  {
    && (forall i :: 0 <= i < n ==> ps[i].info.name in layout && layout[ps[i].info.name] == MetaOf(ps, i))
    && (forall name :: name in layout ==> exists i :: 0 <= i < n && ps[i].info.name == name)
  }

  lemma DescribesNext(layout: map<string, Meta>, ps: seq<Property>, n: nat)
    requires n < |ps| && DistinctNames(ps) && Describes(layout, ps, n)
    ensures Describes(layout[ps[n].info.name := MetaOf(ps, n)], ps, n + 1)
  {
    hide MetaOf;
    var next := layout[ps[n].info.name := MetaOf(ps, n)];
    forall name | name in next ensures exists i :: 0 <= i < n + 1 && ps[i].info.name == name {
      if name in layout {
        var i :| 0 <= i < n && ps[i].info.name == name;
      } else {
        assert ps[n].info.name == name;
      }
    }
  }

  lemma DescribedAt(layout: map<string, Meta>, ps: seq<Property>, i: nat)
    requires i < |ps| && Describes(layout, ps, |ps|)
    ensures ps[i].info.name in layout && layout[ps[i].info.name] == MetaOf(ps, i)
  {
  }

  /** The layout loop, over the infos and the buffer of a well-formed list. */
  method ComputeLayout(infos: seq<PropertyInfo>, data: Bytes, ghost ps: seq<Property>)
    returns (layout: map<string, Meta>)
    requires WellFormed(ps) && infos == Infos(ps) && data == EncodedAll(ps)
    ensures Describes(layout, ps, |ps|)
  {
    hide SizeOf, Encoded, EncodedAll, Sound, DistinctNames;
    layout := map[];
    var offset := 0;
    assert ps[..0] == [] && EncodedAll([]) == "" by { NothingEncoded(); }
    assert Describes(layout, ps, 0);
    hide Describes;
    for k := 0 to |infos|
      invariant offset == StartOf(ps, k)
      invariant Describes(layout, ps, k)
    {
      PackedAround(ps, k);
      MetaOfPacked(ps[k], EncodedAll(ps[..k]), EncodedAll(ps[k + 1..]));
      var meta := MetaAt(infos[k], data, offset);
      DescribesNext(layout, ps, k);
      layout := layout[infos[k].name := meta.value];
      offset := offset + meta.value.span;
    }
  }

  lemma NothingEncoded()
    ensures EncodedAll([]) == ""
  {
  }

  /** The first property of that name. */
  function Find(ps: seq<Property>, name: string): Option<Property> {
    if ps == [] then None else if ps[0].info.name == name then Some(ps[0]) else Find(ps[1..], name)
  }

  lemma {:induction false} FindAt(ps: seq<Property>, i: nat)
    requires DistinctNames(ps) && i < |ps|
    ensures Find(ps, ps[i].info.name) == Some(ps[i])
  {
    if i > 0 {
      assert ps[0].info.name != ps[i].info.name;
      FindAt(ps[1..], i - 1);
    }
  }

  lemma {:induction false} FindNone(ps: seq<Property>, name: string)
    ensures Find(ps, name) == None <==> forall i :: 0 <= i < |ps| ==> ps[i].info.name != name
  {
    if ps != [] {
      FindNone(ps[1..], name);
      assert forall i :: 1 <= i < |ps| ==> ps[i] == ps[1..][i - 1];
    }
  }

  // ---- edits ----

  datatype Change =
    | SetValue(name: string, data: Bytes)
    | Insert(index: nat, p: Property)
    | Delete(name: string)

  /** The properties the rebuild loop writes for item `i`. */
  function EditedAt(ps: seq<Property>, change: Change, i: nat): seq<Property>
    requires i < |ps|
  {
    match change
    case SetValue(name, data) => [if ps[i].info.name == name then ps[i].(data := data) else ps[i]]
    case Insert(index, p) => if index == i then [p, ps[i]] else [ps[i]]
    case Delete(name) => if ps[i].info.name == name then [] else [ps[i]]
  }

  function EditedUpTo(ps: seq<Property>, change: Change, i: nat): seq<Property>
    requires i <= |ps|
  {
    if i == 0 then [] else EditedUpTo(ps, change, i - 1) + EditedAt(ps, change, i - 1)
  }

  function Changed(ps: seq<Property>, change: Change): seq<Property> {
    EditedUpTo(ps, change, |ps|) + if change.Insert? && change.index >= |ps| then [change.p] else []
  }

  lemma {:induction false} InsertSteps(ps: seq<Property>, index: nat, p: Property, i: nat)
    requires i <= |ps|
    ensures EditedUpTo(ps, Insert(index, p), i) == if index < i then ps[..index] + [p] + ps[index..i] else ps[..i]
  {
    if i > 0 {
      InsertSteps(ps, index, p, i - 1);
      assert ps[..i] == ps[..i - 1] + [ps[i - 1]];
      if index < i - 1 { assert ps[index..i] == ps[index..i - 1] + [ps[i - 1]]; }
    }
  }

  /** An insert puts the property at its index, behind the last one for an index past the end. */
  lemma InsertIs(ps: seq<Property>, index: nat, p: Property)
    ensures var at := if index < |ps| then index else |ps|;
            Changed(ps, Insert(index, p)) == ps[..at] + [p] + ps[at..]
  {
    InsertSteps(ps, index, p, |ps|);
    assert ps[..|ps|] == ps;
  }

  lemma {:induction false} SetSteps(ps: seq<Property>, name: string, data: Bytes, i: nat)
    requires i <= |ps|
    ensures var r := EditedUpTo(ps, SetValue(name, data), i);
            |r| == i && forall k :: 0 <= k < i ==>
              r[k] == if ps[k].info.name == name then ps[k].(data := data) else ps[k]
  {
    if i > 0 { SetSteps(ps, name, data, i - 1); }
  }

  lemma {:induction false} DeleteSteps(ps: seq<Property>, name: string, i: nat)
    requires i <= |ps|
    ensures EditedUpTo(ps, Delete(name), i) == Without(ps[..i], name)
  {
    if i > 0 {
      DeleteSteps(ps, name, i - 1);
      assert ps[..i][..i - 1] == ps[..i - 1];
    }
  }

  /** The properties of another name, in order. */
  function Without(ps: seq<Property>, name: string): seq<Property> {
    if ps == [] then []
    else Without(ps[..|ps| - 1], name) + if ps[|ps| - 1].info.name == name then [] else [ps[|ps| - 1]]
  }

  lemma {:induction false} WithoutAppend(a: seq<Property>, b: seq<Property>, name: string)
    ensures Without(a + b, name) == Without(a, name) + Without(b, name)
    decreases |b|
  {
    if b == [] {
      assert a + b == a;
    } else {
      WithoutAppend(a, b[..|b| - 1], name);
      assert (a + b)[..|a + b| - 1] == a + b[..|b| - 1];
    }
  }

  lemma {:induction false} WithoutNone(ps: seq<Property>, name: string)
    requires forall i :: 0 <= i < |ps| ==> ps[i].info.name != name
    ensures Without(ps, name) == ps
  {
    if ps != [] { WithoutNone(ps[..|ps| - 1], name); }
  }

  /** A delete takes the one property out and leaves the others in their order. */
  lemma DeleteIs(ps: seq<Property>, i: nat)
    requires DistinctNames(ps) && i < |ps|
    ensures Changed(ps, Delete(ps[i].info.name)) == ps[..i] + ps[i + 1..]
  {
    var name := ps[i].info.name;
    DeleteSteps(ps, name, |ps|);
    hide Without, EditedUpTo;
    assert ps == ps[..i] + [ps[i]] + ps[i + 1..] && ps[..|ps|] == ps;
    WithoutTheOne(ps[..i], ps[i], ps[i + 1..]);
  }

  lemma WithoutTheOne(a: seq<Property>, p: Property, b: seq<Property>)
    requires forall i :: 0 <= i < |a| ==> a[i].info.name != p.info.name
    requires forall i :: 0 <= i < |b| ==> b[i].info.name != p.info.name
    ensures Without(a + [p] + b, p.info.name) == a + b
  {
    var name := p.info.name;
    WithoutItself(p);
    hide Without;
    WithoutAppend(a + [p], b, name);
    WithoutAppend(a, [p], name);
    WithoutNone(a, name);
    WithoutNone(b, name);
    assert a + [] == a;
  }

  lemma WithoutItself(p: Property)
    ensures Without([p], p.info.name) == []
  {
    assert [p][..0] == [];
  }

  /** A set changes the bytes of the one property in its place. */
  lemma SetIs(ps: seq<Property>, i: nat, data: Bytes)
    requires DistinctNames(ps) && i < |ps|
    ensures Changed(ps, SetValue(ps[i].info.name, data)) == ps[i := ps[i].(data := data)]
  {
    SetSteps(ps, ps[i].info.name, data, |ps|);
  }

  lemma {:induction false} WithoutOthers(ps: seq<Property>, name: string)
    requires WellFormed(ps)
    ensures WellFormed(Without(ps, name))
    ensures forall p :: p in Without(ps, name) <==> p in ps && p.info.name != name
  {
    if ps != [] {
      var init, last := ps[..|ps| - 1], ps[|ps| - 1];
      assert ps == init + [last];
      assert WellFormed(init);
      WithoutOthers(init, name);
      var r := Without(init, name);
      forall i | 0 <= i < |r| ensures r[i].info.name != last.info.name {
        assert r[i] in init;
        var k :| 0 <= k < |init| && init[k] == r[i];
        assert ps[k] == r[i];
      }
    }
  }

  /** Which edits the owner of a well-formed list may make. */
  ghost predicate Allowed(ps: seq<Property>, change: Change) {
    match change
    case SetValue(name, data) => forall i :: 0 <= i < |ps| && ps[i].info.name == name ==> Sound(ps[i].(data := data))
    case Insert(index, p) => Sound(p) && Find(ps, p.info.name) == None
    case Delete(name) => true
  }

  /** Every edit keeps the list well-formed; the edited name reads the new value, every other name the old. */
  lemma ChangeReads(ps: seq<Property>, change: Change, other: string)
    requires WellFormed(ps) && Allowed(ps, change)
    ensures WellFormed(Changed(ps, change))
    ensures match change
            case SetValue(name, data) =>
              && (Find(ps, name).Some? ==>
                    Find(Changed(ps, change), name) == Some(Find(ps, name).value.(data := data)))
              && (other != name ==> Find(Changed(ps, change), other) == Find(ps, other))
            case Insert(index, p) =>
              && Find(Changed(ps, change), p.info.name) == Some(p)
              && (other != p.info.name ==> Find(Changed(ps, change), other) == Find(ps, other))
            case Delete(name) =>
              && Find(Changed(ps, change), name) == None
              && (other != name ==> Find(Changed(ps, change), other) == Find(ps, other))
  {
    match change
    case SetValue(name, data) =>
      SetReads(ps, name, data, other);
      SetReads(ps, name, data, name);
    case Insert(index, p) =>
      InsertReads(ps, index, p, other);
      InsertReads(ps, index, p, p.info.name);
    case Delete(name) =>
      DeleteReads(ps, name, other);
      DeleteReads(ps, name, name);
  }

  /** In well-formed lists a lookup depends only on the members. */
  lemma FindMember(ps: seq<Property>, name: string, p: Property)
    requires DistinctNames(ps)
    ensures Find(ps, name) == Some(p) <==> p in ps && p.info.name == name
  {
    FindNone(ps, name);
    if p in ps && p.info.name == name {
      var i :| 0 <= i < |ps| && ps[i] == p;
      FindAt(ps, i);
    }
    if Find(ps, name) == Some(p) { FindIsMember(ps, name); }
  }

  lemma {:induction false} FindIsMember(ps: seq<Property>, name: string)
    requires Find(ps, name).Some?
    ensures Find(ps, name).value in ps && Find(ps, name).value.info.name == name
  {
    if ps[0].info.name != name { FindIsMember(ps[1..], name); }
  }

  lemma SameFind(a: seq<Property>, b: seq<Property>, name: string)
    requires DistinctNames(a) && DistinctNames(b)
    requires forall p: Property :: p.info.name == name ==> (p in a <==> p in b)
    ensures Find(a, name) == Find(b, name)
  {
    if Find(a, name).Some? {
      FindMember(a, name, Find(a, name).value);
      FindMember(b, name, Find(a, name).value);
    } else if Find(b, name).Some? {
      FindMember(b, name, Find(b, name).value);
      FindMember(a, name, Find(b, name).value);
    }
  }

  lemma SetSound(ps: seq<Property>, name: string, data: Bytes)
    requires WellFormed(ps) && Allowed(ps, SetValue(name, data))
    ensures WellFormed(Changed(ps, SetValue(name, data)))
  {
    SetSteps(ps, name, data, |ps|);
    hide Sound, EditedUpTo;
    var r := Changed(ps, SetValue(name, data));
    forall i, j | 0 <= i < j < |r| ensures r[i].info.name != r[j].info.name {
      assert r[i].info == ps[i].info && r[j].info == ps[j].info;
    }
  }

  lemma SetReads(ps: seq<Property>, name: string, data: Bytes, other: string)
    requires WellFormed(ps) && Allowed(ps, SetValue(name, data))
    ensures var r := Changed(ps, SetValue(name, data));
            && WellFormed(r)
            && Find(r, other) ==
                 if other == name && Find(ps, name).Some? then Some(Find(ps, name).value.(data := data))
                 else Find(ps, other)
  {
    var r := Changed(ps, SetValue(name, data));
    SetSound(ps, name, data);
    SetSteps(ps, name, data, |ps|);
    hide Find, Sound, EditedUpTo, Changed, Allowed;
    if Find(ps, other).Some? {
      FindMember(ps, other, Find(ps, other).value);
      var i :| 0 <= i < |ps| && ps[i] == Find(ps, other).value;
      FindAt(r, i);
    } else {
      FindNone(ps, other);
      assert forall i :: 0 <= i < |r| ==> r[i].info == ps[i].info;
      FindNone(r, other);
    }
  }

  lemma InsertSplits(ps: seq<Property>, at: nat, p: Property)
    requires at <= |ps|
    ensures var r := ps[..at] + [p] + ps[at..];
            forall i :: 0 <= i < |r| ==> r[i] == if i < at then ps[i] else if i == at then p else ps[i - 1]
  {
  }

  lemma InsertedSound(ps: seq<Property>, at: nat, p: Property)
    requires WellFormed(ps) && at <= |ps| && Allowed(ps, Insert(at, p))
    ensures WellFormed(ps[..at] + [p] + ps[at..])
  {
    hide Sound, Find;
    FindNone(ps, p.info.name);
    InsertSplits(ps, at, p);
    var r := ps[..at] + [p] + ps[at..];
    forall i, j | 0 <= i < j < |r| ensures r[i].info.name != r[j].info.name {
      if j == at {
        assert r[i] == ps[i];
      } else if i == at {
        assert r[j] == ps[j - 1];
      }
    }
  }

  lemma InsertReads(ps: seq<Property>, index: nat, p: Property, other: string)
    requires WellFormed(ps) && Allowed(ps, Insert(index, p))
    ensures var r := Changed(ps, Insert(index, p));
            && WellFormed(r)
            && Find(r, other) == if other == p.info.name then Some(p) else Find(ps, other)
  {
    var r := Changed(ps, Insert(index, p));
    var at := if index < |ps| then index else |ps|;
    InsertIs(ps, index, p);
    InsertedSound(ps, at, p);
    hide Changed, Sound, Find;
    assert r[at] == p;
    if other == p.info.name {
      FindAt(r, at);
    } else {
      assert ps == ps[..at] + ps[at..];
      SameFind(r, ps, other);
    }
  }

  lemma DeleteReads(ps: seq<Property>, name: string, other: string)
    requires WellFormed(ps)
    ensures var r := Changed(ps, Delete(name));
            && WellFormed(r)
            && Find(r, other) == if other == name then None else Find(ps, other)
  {
    var r := Changed(ps, Delete(name));
    DeleteSteps(ps, name, |ps|);
    assert ps[..|ps|] == ps;
    WithoutOthers(ps, name);
    if other == name {
      if Find(r, name).Some? { FindIsMember(r, name); }
    } else {
      SameFind(r, ps, other);
    }
  }

  // ---- the rebuild loop ----

  /** out.set(src, off) */
  method SetBytes(out: array<char>, off: nat, src: Bytes)
    requires off + |src| <= out.Length
    modifies out
    ensures out[..off + |src|] == old(out[..off]) + src
  {
    for i := 0 to |src|
      invariant out[..off] == old(out[..off])
      invariant out[off..off + i] == src[..i]
    {
      out[off + i] := src[i];
      assert out[off..off + i + 1] == out[off..off + i] + [src[i]];
    }
    assert out[..off + |src|] == out[..off] + out[off..off + |src|];
  }

  lemma StepsPrefix(ps: seq<Property>, change: Change, i: nat)
    requires i < |ps|
    ensures |EncodedAll(EditedUpTo(ps, change, i))| + |EncodedAll(EditedAt(ps, change, i))| == |EncodedAll(EditedUpTo(ps, change, i + 1))|
    ensures EncodedAll(EditedUpTo(ps, change, i + 1)) == EncodedAll(EditedUpTo(ps, change, i)) + EncodedAll(EditedAt(ps, change, i))
  {
    EncodedAppend(EditedUpTo(ps, change, i), EditedAt(ps, change, i));
  }

  lemma {:induction false} StepsGrow(ps: seq<Property>, change: Change, i: nat)
    requires i <= |ps|
    ensures |EncodedAll(EditedUpTo(ps, change, i))| <= |EncodedAll(EditedUpTo(ps, change, |ps|))|
    decreases |ps| - i
  {
    hide EncodedAll, EditedUpTo, EditedAt;
    if i < |ps| {
      StepsPrefix(ps, change, i);
      StepsGrow(ps, change, i + 1);
    }
  }

  /** The bytes the loop writes for item `i`: an inserted property first, then the copy or the new value. */
  function StepBytes(info: PropertyInfo, copy: Bytes, change: Change, i: nat): Bytes {
    match change
    case SetValue(name, data) => if name == info.name then Encoded(Property(info, data)) else copy
    case Insert(index, p) => (if index == i then Encoded(p) else "") + copy
    case Delete(name) => if name == info.name then "" else copy
  }

  lemma StepBytesAre(ps: seq<Property>, change: Change, i: nat)
    requires i < |ps|
    ensures StepBytes(ps[i].info, Encoded(ps[i]), change, i) == EncodedAll(EditedAt(ps, change, i))
  {
    EncodedOne(ps[i]);
    if change.Insert? {
      EncodedTwo(change.p, ps[i]);
    } else if change.SetValue? {
      EncodedOne(ps[i].(data := change.data));
    }
  }

  /** What the loops write: the items in order, and an insert past the last of them. */
  function Tail(change: Change, count: nat): Bytes {
    if change.Insert? && change.index >= count then Encoded(change.p) else ""
  }

  lemma GrownBy(ps: seq<Property>, change: Change, i: nat)
    requires i < |ps|
    ensures EncodedAll(EditedUpTo(ps, change, i + 1)) ==
            EncodedAll(EditedUpTo(ps, change, i)) + StepBytes(ps[i].info, Encoded(ps[i]), change, i)
    ensures |EncodedAll(EditedUpTo(ps, change, i + 1))| <= |EncodedAll(EditedUpTo(ps, change, |ps|))|
  {
    hide *;
    StepBytesAre(ps, change, i);
    StepsPrefix(ps, change, i);
    StepsGrow(ps, change, i + 1);
  }

  /** One item of the rebuild loop, with the bytes it finds through the layout. */
  lemma RebuildStep(ps: seq<Property>, layout: map<string, Meta>, change: Change, i: nat)
    requires i < |ps| && Describes(layout, ps, |ps|)
    ensures ps[i].info.name in layout
    ensures var meta := layout[ps[i].info.name];
            && meta.offset + meta.span <= |EncodedAll(ps)|
            && EncodedAll(EditedUpTo(ps, change, i + 1)) ==
               EncodedAll(EditedUpTo(ps, change, i))
               + StepBytes(ps[i].info, EncodedAll(ps)[meta.offset..meta.offset + meta.span], change, i)
    ensures |EncodedAll(EditedUpTo(ps, change, i + 1))| <= |EncodedAll(EditedUpTo(ps, change, |ps|))|
  {
    hide SizeOf, Encoded, EncodedAll, StepBytes, EditedAt, EditedUpTo, Describes, StartOf;
    DescribedAt(layout, ps, i);
    PackedAt(ps, i);
    GrownBy(ps, change, i);
  }

  /** Two passes: the new length, then the bytes of every item in order. */
  method BuildPropertiesWithChange(infos: seq<PropertyInfo>, data: Bytes, change: Change, ghost ps: seq<Property>)
    returns (r: Bytes)
    requires WellFormed(ps) && infos == Infos(ps) && data == EncodedAll(ps)
    ensures r == EncodedAll(Changed(ps, change))
  {
    hide *;
    var layout := ComputeLayout(infos, data, ps);
    StepsEmpty(ps, change);
    var newLen := 0;
    for i := 0 to |infos|
      invariant newLen == |EncodedAll(EditedUpTo(ps, change, i))|
    {
      RebuildStep(ps, layout, change, i);
      var meta := layout[infos[i].name];
      newLen := newLen + |StepBytes(infos[i], data[meta.offset..meta.offset + meta.span], change, i)|;
    }
    TailBytes(ps, change);
    newLen := newLen + |Tail(change, |infos|)|;
    var out := new char[newLen];
    var off := 0;
    for i := 0 to |infos|
      invariant off == |EncodedAll(EditedUpTo(ps, change, i))|
      invariant off <= |EncodedAll(EditedUpTo(ps, change, |ps|))|
      invariant out[..off] == EncodedAll(EditedUpTo(ps, change, i))
    {
      RebuildStep(ps, layout, change, i);
      var meta := layout[infos[i].name];
      var bytes := StepBytes(infos[i], data[meta.offset..meta.offset + meta.span], change, i);
      SetBytes(out, off, bytes);
      off := off + |bytes|;
    }
    SetBytes(out, off, Tail(change, |infos|));
    assert out[..newLen] == out[..];
    r := out[..];
  }

  lemma StepsEmpty(ps: seq<Property>, change: Change)
    ensures EncodedAll(EditedUpTo(ps, change, 0)) == ""
  {
  }

  lemma TailBytes(ps: seq<Property>, change: Change)
    ensures EncodedAll(Changed(ps, change)) == EncodedAll(EditedUpTo(ps, change, |ps|)) + Tail(change, |ps|)
  {
    hide Encoded, EncodedAll;
    if change.Insert? && change.index >= |ps| {
      EncodedOne(change.p);
      EncodedAppend(EditedUpTo(ps, change, |ps|), [change.p]);
    } else {
      assert Changed(ps, change) == EditedUpTo(ps, change, |ps|);
    }
  }

  // ---- fixed values ----

  datatype FixedValue =
    | Int64(v: int)
    | UInt64(n: int)
    | DoubleBits(bits: Bytes)
    | FloatBits(bits: Bytes)
    | Bool(b: bool)

  datatype PropertyValue = Fixed(v: FixedValue) | SpanValue(data: Bytes)

  function TypeOf(v: FixedValue): string {
    match v
    case Int64(_) => "int64"
    case UInt64(_) => "uint64"
    case DoubleBits(_) => "double"
    case FloatBits(_) => "float"
    case Bool(_) => "bool"
  }

  /** A float is given by its bytes. */
  predicate WellSized(v: FixedValue) {
    (v.DoubleBits? ==> |v.bits| == 8) && (v.FloatBits? ==> |v.bits| == 4)
  }

  predicate Representable(v: FixedValue) {
    match v
    case Int64(n) => -(Text.TWO_64 as int) / 2 <= n < Text.TWO_64 / 2
    case UInt64(n) => 0 <= n < Text.TWO_64
    case _ => true
  }

  /** What is written; integers wrap to 64 bits. */
  function FixedBytes(v: FixedValue): Bytes {
    match v
    case Int64(n) => LittleEndian(n % Text.TWO_64, 8)
    case UInt64(n) => LittleEndian(n % Text.TWO_64, 8)
    case DoubleBits(bits) => bits
    case FloatBits(bits) => bits
    case Bool(b) => if b then [1 as char] else [0 as char]
  }

  function ReadFixed(typeName: string, s: Bytes): Option<FixedValue> {
    if typeName == "int64" then
      var n := LittleEndianValue(s);
      Some(Int64(if n < Text.TWO_64 / 2 then n else n - Text.TWO_64))
    else if typeName == "uint64" then Some(UInt64(LittleEndianValue(s)))
    else if typeName == "double" then Some(DoubleBits(s))
    else if typeName == "float" then Some(FloatBits(s))
    else if typeName == "bool" && s != "" then Some(Bool(s[0] != 0 as char))
    else None
  }

  lemma EightByteLength(n: nat)
    requires n < Text.TWO_64
    ensures |LittleEndian(n, 8)| == 8 && LittleEndianValue(LittleEndian(n, 8)) == n
  {
    assert Pow256(8) == 256 * (256 * (256 * (256 * (256 * (256 * (256 * (256 * Pow256(0))))))));
    hide LittleEndian, LittleEndianValue;
    LittleEndianRoundTrip(n, 8);
  }

  /** A value has the size of its type, and it reads back exactly when it is in the range of that type. */
  lemma FixedRoundTrip(v: FixedValue)
    requires WellSized(v)
    ensures |FixedBytes(v)| == SizeOf(TypeOf(v))
    ensures ReadFixed(TypeOf(v), FixedBytes(v)) == Some(v) <==> Representable(v)
  {
    hide LittleEndian, LittleEndianValue;
    if v.Int64? {
      EightByteLength(v.v % Text.TWO_64);
    } else if v.UInt64? {
      EightByteLength(v.n % Text.TWO_64);
    }
  }

  /** The bytes of each kind of value: eight with the lowest first, those given, or one. */
  lemma FixedLayout(v: FixedValue)
    requires WellSized(v)
    ensures var bytes := FixedBytes(v);
            match v
            case Int64(n) => TypeOf(v) == "int64" && |bytes| == 8 && LittleEndianValue(bytes) == n % Text.TWO_64
            case UInt64(n) => TypeOf(v) == "uint64" && |bytes| == 8 && LittleEndianValue(bytes) == n % Text.TWO_64
            case DoubleBits(bits) => TypeOf(v) == "double" && bytes == bits
            case FloatBits(bits) => TypeOf(v) == "float" && bytes == bits
            case Bool(b) => TypeOf(v) == "bool" && bytes == [(if b then 1 else 0) as char]
  {
    hide LittleEndian, LittleEndianValue;
    if v.Int64? {
      EightByteLength(v.v % Text.TWO_64);
    } else if v.UInt64? {
      EightByteLength(v.n % Text.TWO_64);
    }
  }

  /** How bytes read under a fixed type: 64 bits in two's complement or without a sign, or any byte but zero. */
  lemma ReadFixedIs(typeName: string, s: Bytes)
    requires AllBytes(s) && SizeOf(typeName) > 0 && |s| == SizeOf(typeName)
    ensures match typeName
            case "int64" =>
              var n := LittleEndianValue(s);
              && n < 0x1_0000_0000_0000_0000
              && ReadFixed(typeName, s) ==
                 Some(Int64(if n < 0x8000_0000_0000_0000 then n else n - 0x1_0000_0000_0000_0000))
            case "uint64" => ReadFixed(typeName, s) == Some(UInt64(LittleEndianValue(s)))
            case "double" => ReadFixed(typeName, s) == Some(DoubleBits(s))
            case "float" => ReadFixed(typeName, s) == Some(FloatBits(s))
            case _ => typeName == "bool" && ReadFixed(typeName, s) == Some(Bool(s[0] as nat != 0))
  {
    if typeName == "int64" {
      LittleEndianInverse(s);
      assert Pow256(8) == 256 * (256 * (256 * (256 * (256 * (256 * (256 * (256 * Pow256(0))))))));
    }
  }

  /** A span lies behind four bytes of length, the lowest first; a fixed value has no prefix. */
  lemma SpanLayout(p: Property)
    requires Sound(p)
    ensures SizeOf(p.info.typeName) > 0 ==> Encoded(p) == p.data
    ensures SizeOf(p.info.typeName) == 0 ==>
              && |Encoded(p)| == 4 + |p.data| && Encoded(p)[4..] == p.data
              && Encoded(p)[0] as nat + 0x100 * Encoded(p)[1] as nat + 0x1_0000 * Encoded(p)[2] as nat
                 + 0x100_0000 * Encoded(p)[3] as nat == |p.data|
  {
    if SizeOf(p.info.typeName) == 0 {
      FourByteLength(|p.data|);
      FourBytes(LittleEndian(|p.data|, 4));
      hide LittleEndian, LittleEndianValue;
      assert Encoded(p)[..4] == LittleEndian(|p.data|, 4);
    }
  }

  // ---- the node ----

  class PropertyNode {
    var propertyInfos: seq<PropertyInfo>
    var propertyData: Bytes
    ghost var properties: seq<Property>

    ghost predicate Valid()
      reads this
    {
      && WellFormed(properties)
      && propertyInfos == Infos(properties) && propertyData == EncodedAll(properties)
    }

    constructor ()
      ensures Valid() && properties == []
    {
      propertyInfos, propertyData, properties := [], "", [];
    }

    /** None when there is no such property; else its extent and its bytes. */
    method GetProperty(name: string) returns (r: Option<(nat, bool, Bytes)>)
      requires Valid()
      ensures r == match Find(properties, name)
                   case None => None
                   case Some(p) => Some((|Encoded(p)|, SizeOf(p.info.typeName) == 0, p.data))
    {
      hide Find, EncodedAll, Sound, DistinctNames, Infos;
      var layout := ComputeLayout(propertyInfos, propertyData, properties);
      FindNone(properties, name);
      if name !in layout {
        return None;
      }
      ghost var i :| 0 <= i < |properties| && properties[i].info.name == name;
      FindAt(properties, i);
      PackedAt(properties, i);
      var meta := layout[name];
      EncodedBody(properties[i]);
      hide Encoded, Describes;
      var bytes := propertyData[meta.offset..meta.offset + meta.span];
      r := Some((meta.span, meta.variable, if meta.variable then bytes[4..] else bytes));
    }

    /** The value of a fixed property, the bytes of one of variable size; None when it is missing. */
    method GetPropertyValue(name: string) returns (r: Option<PropertyValue>)
      requires Valid()
      ensures r == match Find(properties, name)
                   case None => None
                   case Some(p) =>
                     if SizeOf(p.info.typeName) == 0 then Some(SpanValue(p.data))
                     else
                       match ReadFixed(p.info.typeName, p.data)
                       case None => None
                       case Some(v) => Some(Fixed(v))
    {
      hide Find, EncodedAll, Encoded, Sound, DistinctNames, ReadFixed, SizeOf;
      var got := GetProperty(name);
      if got.None? {
        return None;
      }
      if got.value.1 {
        return Some(SpanValue(got.value.2));
      }
      FindIsMember(properties, name);
      var i := 0;
      while propertyInfos[i].name != name
        invariant 0 <= i < |properties|
        invariant exists k :: i <= k < |properties| && properties[k].info.name == name
        decreases |properties| - i
      {
        i := i + 1;
      }
      FindAt(properties, i);
      var v := ReadFixed(propertyInfos[i].typeName, got.value.2);
      r := if v.None? then None else Some(Fixed(v.value));
    }

    /** The bytes of a span; None when it is missing or of fixed size. */
    method GetPropertyString(name: string) returns (r: Option<Bytes>)
      requires Valid()
      ensures r == match Find(properties, name)
                   case None => None
                   case Some(p) => if SizeOf(p.info.typeName) == 0 then Some(p.data) else None
    {
      var got := GetProperty(name);
      r := if got.Some? && got.value.1 then Some(got.value.2) else None;
    }

    /** Fails, changing nothing, unless a property of that name and the value's type exists. */
    method SetPropertyValue(name: string, v: FixedValue) returns (ok: bool)
      requires Valid() && WellSized(v)
      requires Find(properties, name).Some? && SizeOf(Find(properties, name).value.info.typeName) > 0 ==>
                 Find(properties, name).value.info.typeName == TypeOf(v)
      modifies this
      ensures Valid()
      ensures ok <==> Find(old(properties), name).Some? && SizeOf(Find(old(properties), name).value.info.typeName) > 0
      ensures properties == if ok then Changed(old(properties), SetValue(name, FixedBytes(v))) else old(properties)
      ensures forall i :: 0 <= i < |old(properties)| && old(properties)[i].info.name == name && ok ==>
                properties == old(properties)[i := old(properties)[i].(data := FixedBytes(v))]
    {
      SetInPlace(properties, name, FixedBytes(v));
      var got := GetProperty(name);
      if got.None? || got.value.1 {
        return false;
      }
      FixedRoundTrip(v);
      SetIsAllowed(properties, name, FixedBytes(v));
      Apply(SetValue(name, FixedBytes(v)));
      ok := true;
    }

    method SetPropertySpan(name: string, data: Bytes) returns (ok: bool)
      requires Valid() && |data| < Text.TWO_32
      modifies this
      ensures Valid()
      ensures ok <==> Find(old(properties), name).Some? && SizeOf(Find(old(properties), name).value.info.typeName) == 0
      ensures properties == if ok then Changed(old(properties), SetValue(name, data)) else old(properties)
      ensures forall i :: 0 <= i < |old(properties)| && old(properties)[i].info.name == name && ok ==>
                properties == old(properties)[i := old(properties)[i].(data := data)]
    {
      SetInPlace(properties, name, data);
      var got := GetProperty(name);
      if got.None? || !got.value.1 {
        return false;
      }
      SetIsAllowed(properties, name, data);
      Apply(SetValue(name, data));
      ok := true;
    }

    /** An index below zero or past the end appends. */
    method InsertProperty(index: int, name: string, v: FixedValue) returns (ok: bool)
      requires Valid() && WellSized(v)
      modifies this
      ensures Valid() && (ok <==> Find(old(properties), name).None?)
      ensures var p := Property(PropertyInfo(TypeOf(v), name), FixedBytes(v));
              properties == if ok then Changed(old(properties), Insert(ClampIndex(index, |old(properties)|), p))
                            else old(properties)
      ensures var p := Property(PropertyInfo(TypeOf(v), name), FixedBytes(v));
              var at := if 0 <= index < |old(properties)| then index else |old(properties)|;
              ok ==> properties == old(properties)[..at] + [p] + old(properties)[at..]
    {
      InsertIs(properties, ClampIndex(index, |properties|), Property(PropertyInfo(TypeOf(v), name), FixedBytes(v)));
      var got := GetProperty(name);
      if got.Some? {
        return false;
      }
      FixedRoundTrip(v);
      Apply(Insert(ClampIndex(index, |propertyInfos|), Property(PropertyInfo(TypeOf(v), name), FixedBytes(v))));
      ok := true;
    }

    /**
     The type name is not checked, and always a length and the span are written.  With a type of variable
     size the node stays valid; with a fixed one it is still a list of named values exactly when the bytes
     behind the value are cut up whole again.
     */
    method InsertPropertySpan(index: int, name: string, typeName: string, data: Bytes) returns (ok: bool)
      requires Valid() && |data| < Text.TWO_32
      modifies this
      ensures ok <==> Find(old(properties), name).None?
      ensures !ok || SizeOf(typeName) == 0 ==> Valid()
      ensures SizeOf(typeName) == 0 ==>
                var p := Property(PropertyInfo(typeName, name), data);
                properties == if ok then Changed(old(properties), Insert(ClampIndex(index, |old(properties)|), p))
                              else old(properties)
      ensures ok ==>
                var at := if 0 <= index < |old(properties)| then index else |old(properties)|;
                && propertyInfos == SpanInfos(old(properties), at, PropertyInfo(typeName, name))
                && propertyData == EncodedAll(old(properties)[..at]) + SpanTail(old(properties), at, data)
                && (AllBytes(propertyData) ==>
                      (Describable(propertyInfos, propertyData) <==> SpanFits(old(properties), at, typeName, data)))
    {
      hide Find, EncodedAll, Changed, DistinctNames, Describable, SpanFits, AllBytes;
      var got := GetProperty(name);
      if got.Some? {
        return false;
      }
      ok := true;
      var at := ClampIndex(index, |propertyInfos|);
      var info := PropertyInfo(typeName, name);
      SpanInfosInserted(properties, at, info);
      SpanBytes(properties, at, name, if SizeOf(typeName) == 0 then typeName else "", data);
      InfosFollow(properties, Insert(at, Property(info, data)));
      if AllBytes(EncodedAll(properties[..at]) + SpanTail(properties, at, data)) {
        SpanDescribableExactly(properties, at, info, data);
      }
      hide SpanTail;
      if SizeOf(typeName) == 0 {
        Apply(Insert(at, Property(info, data)));
      } else {
        propertyData := BuildPropertiesWithChange(propertyInfos, propertyData,
                                                  Insert(at, Property(PropertyInfo("", name), data)), properties);
        propertyInfos := propertyInfos[..at] + [info] + propertyInfos[at..];
      }
    }

    method DeleteProperty(name: string) returns (ok: bool)
      requires Valid()
      modifies this
      ensures Valid()
      ensures ok <==> Find(old(properties), name).Some?
      ensures properties == if ok then Changed(old(properties), Delete(name)) else old(properties)
      ensures forall i :: 0 <= i < |old(properties)| && old(properties)[i].info.name == name ==>
                properties == old(properties)[..i] + old(properties)[i + 1..]
    {
      DeleteInPlace(properties, name);
      var got := GetProperty(name);
      if got.None? {
        return false;
      }
      Apply(Delete(name));
      ok := true;
    }

    /** Rebuild the buffer and update the infos alike. */
    method Apply(change: Change)
      requires Valid() && Allowed(properties, change)
      modifies this
      ensures Valid() && properties == Changed(old(properties), change)
    {
      hide Changed, EncodedAll, Allowed, Sound, DistinctNames, ChangedInfos, Infos;
      var rebuilt := BuildPropertiesWithChange(propertyInfos, propertyData, change, properties);
      ChangeReads(properties, change, "");
      propertyInfos := ChangedInfos(propertyInfos, change);
      InfosFollow(properties, change);
      propertyData := rebuilt;
      properties := Changed(properties, change);
    }
  }

  lemma SetInPlace(ps: seq<Property>, name: string, data: Bytes)
    requires DistinctNames(ps)
    ensures forall i :: 0 <= i < |ps| && ps[i].info.name == name ==>
              Changed(ps, SetValue(name, data)) == ps[i := ps[i].(data := data)]
  {
    forall i | 0 <= i < |ps| && ps[i].info.name == name
      ensures Changed(ps, SetValue(name, data)) == ps[i := ps[i].(data := data)]
    {
      SetIs(ps, i, data);
    }
  }

  lemma DeleteInPlace(ps: seq<Property>, name: string)
    requires DistinctNames(ps)
    ensures forall i :: 0 <= i < |ps| && ps[i].info.name == name ==>
              Find(ps, name).Some? && Changed(ps, Delete(name)) == ps[..i] + ps[i + 1..]
  {
    FindNone(ps, name);
    forall i | 0 <= i < |ps| && ps[i].info.name == name ensures Changed(ps, Delete(name)) == ps[..i] + ps[i + 1..] {
      DeleteIs(ps, i);
    }
  }

  function ClampIndex(index: int, length: nat): (r: nat)
    ensures r <= length
  {
    if index < 0 || index > length then length else index
  }

  lemma SetIsAllowed(ps: seq<Property>, name: string, data: Bytes)
    requires WellFormed(ps) && Find(ps, name).Some?
    requires Sound(Find(ps, name).value.(data := data))
    ensures Allowed(ps, SetValue(name, data))
  {
    forall i | 0 <= i < |ps| && ps[i].info.name == name ensures Sound(ps[i].(data := data)) {
      FindAt(ps, i);
    }
  }

  /** insertAt, filter, or no change. */
  function ChangedInfos(infos: seq<PropertyInfo>, change: Change): seq<PropertyInfo> {
    match change
    case SetValue(_, _) => infos
    case Insert(index, p) =>
      if index < |infos| then infos[..index] + [p.info] + infos[index..] else infos + [p.info]
    case Delete(name) => OtherInfos(infos, name)
  }

  function OtherInfos(infos: seq<PropertyInfo>, name: string): seq<PropertyInfo> {
    if infos == [] then []
    else OtherInfos(infos[..|infos| - 1], name) + if infos[|infos| - 1].name == name then [] else [infos[|infos| - 1]]
  }

  lemma InfosFollow(ps: seq<Property>, change: Change)
    ensures ChangedInfos(Infos(ps), change) == Infos(Changed(ps, change))
  {
    if change.SetValue? {
      SetSteps(ps, change.name, change.data, |ps|);
    } else if change.Insert? {
      InsertedInfos(ps, change.index, change.p);
    } else {
      DeletedInfos(ps, change.name);
    }
  }

  lemma InsertedInfos(ps: seq<Property>, index: nat, p: Property)
    ensures ChangedInfos(Infos(ps), Insert(index, p)) == Infos(Changed(ps, Insert(index, p)))
  {
    InsertIs(ps, index, p);
    hide Changed, EditedUpTo;
  }

  lemma DeletedInfos(ps: seq<Property>, name: string)
    ensures OtherInfos(Infos(ps), name) == Infos(Changed(ps, Delete(name)))
  {
    DeleteSteps(ps, name, |ps|);
    assert ps[..|ps|] == ps;
    InfosWithout(ps, name);
  }

  lemma {:induction false} InfosWithout(ps: seq<Property>, name: string)
    ensures OtherInfos(Infos(ps), name) == Infos(Without(ps, name))
  {
    if ps != [] {
      InfosWithout(ps[..|ps| - 1], name);
      assert Infos(ps)[..|ps| - 1] == Infos(ps[..|ps| - 1]);
    }
  }

  // ---- whole runs ----

  ghost predicate AllAllowed(ps: seq<Property>, changes: seq<Change>)
    decreases |changes|
  {
    changes != [] ==>
      AllAllowed(ps, changes[..|changes| - 1]) && Allowed(Edited(ps, changes[..|changes| - 1]), changes[|changes| - 1])
  }

  function Edited(ps: seq<Property>, changes: seq<Change>): seq<Property>
    decreases |changes|
  {
    if changes == [] then ps else Changed(Edited(ps, changes[..|changes| - 1]), changes[|changes| - 1])
  }

  function NameOf(change: Change): string {
    if change.Insert? then change.p.info.name else change.name
  }

  /** After any run of edits the list is well-formed, and a name that no edit mentions reads unchanged. */
  lemma {:induction false} RunReads(ps: seq<Property>, changes: seq<Change>, other: string)
    requires WellFormed(ps) && AllAllowed(ps, changes)
    ensures WellFormed(Edited(ps, changes))
    ensures (forall i :: 0 <= i < |changes| ==> NameOf(changes[i]) != other) ==>
              Find(Edited(ps, changes), other) == Find(ps, other)
    decreases |changes|
  {
    if changes != [] {
      var init, last := changes[..|changes| - 1], changes[|changes| - 1];
      RunReads(ps, init, other);
      ChangeReads(Edited(ps, init), last, other);
    }
  }

  /** What an edit makes the name it mentions read. */
  function EditRead(before: Option<Property>, change: Change): Option<Property> {
    match change
    case SetValue(_, data) => if before.Some? then Some(before.value.(data := data)) else None
    case Insert(_, p) => Some(p)
    case Delete(_) => None
  }

  /** After any run of edits a name reads what the last edit that mentions it made of it. */
  lemma {:induction false} RunReadsLast(ps: seq<Property>, changes: seq<Change>, i: nat)
    requires WellFormed(ps) && AllAllowed(ps, changes) && i < |changes|
    requires forall j :: i < j < |changes| ==> NameOf(changes[j]) != NameOf(changes[i])
    ensures var name := NameOf(changes[i]);
            Find(Edited(ps, changes), name) == EditRead(Find(Edited(ps, changes[..i]), name), changes[i])
    decreases |changes|
  {
    var init, last := changes[..|changes| - 1], changes[|changes| - 1];
    RunReads(ps, init, "");
    hide Find, WellFormed, Allowed;
    if i == |init| {
      EditReads(Edited(ps, init), last);
      assert changes[..i] == init;
    } else {
      RunReadsLast(ps, init, i);
      assert init[..i] == changes[..i] && init[i] == changes[i];
      ChangeReads(Edited(ps, init), last, NameOf(changes[i]));
    }
  }

  lemma EditReads(ps: seq<Property>, change: Change)
    requires WellFormed(ps) && Allowed(ps, change)
    ensures Find(Changed(ps, change), NameOf(change)) == EditRead(Find(ps, NameOf(change)), change)
  {
    if change.SetValue? {
      SetReads(ps, change.name, change.data, change.name);
    } else {
      ChangeReads(ps, change, "");
    }
  }

  /** The buffer and the infos determine the list: two well-formed lists with the same image are equal. */
  lemma {:induction false} PackingIsInjective(a: seq<Property>, b: seq<Property>)
    requires WellFormed(a) && WellFormed(b) && Infos(a) == Infos(b) && EncodedAll(a) == EncodedAll(b)
    ensures a == b
  {
    PrefixesAgree(a, b, |a|);
    assert a[..|a|] == a && b[..|b|] == b;
  }

  lemma SameHead(p: Property, q: Property, before: Bytes, restP: Bytes, restQ: Bytes)
    requires Sound(p) && Sound(q) && p.info == q.info
    requires before + Encoded(p) + restP == before + Encoded(q) + restQ
    ensures p == q
  {
    MetaOfPacked(p, before, restP);
    MetaOfPacked(q, before, restQ);
    var whole := before + Encoded(p) + restP;
    assert Encoded(p) == whole[|before|..|before| + |Encoded(p)|];
    assert Encoded(q) == whole[|before|..|before| + |Encoded(q)|];
    SameEncoding(p, q);
  }

  lemma SameEncoding(p: Property, q: Property)
    requires p.info == q.info && Encoded(p) == Encoded(q)
    ensures p == q
  {
    if SizeOf(p.info.typeName) == 0 {
      assert LittleEndian(|p.data|, 4) + p.data == LittleEndian(|q.data|, 4) + q.data;
      hide LittleEndian;
      assert Encoded(p)[4..] == p.data && Encoded(q)[4..] == q.data;
    }
  }

  lemma NextAgrees(a: seq<Property>, b: seq<Property>, k: nat)
    requires k < |a| == |b| && a[..k] == b[..k] && EncodedAll(a) == EncodedAll(b)
    requires Sound(a[k]) && Sound(b[k]) && a[k].info == b[k].info
    ensures a[..k + 1] == b[..k + 1]
  {
    hide Encoded, EncodedAll, Sound;
    PackedAround(a, k);
    PackedAround(b, k);
    SameHead(a[k], b[k], EncodedAll(a[..k]), EncodedAll(a[k + 1..]), EncodedAll(b[k + 1..]));
    assert a[..k + 1] == a[..k] + [a[k]] && b[..k + 1] == b[..k] + [b[k]];
  }

  lemma {:induction false} PrefixesAgree(a: seq<Property>, b: seq<Property>, i: nat)
    requires WellFormed(a) && WellFormed(b) && Infos(a) == Infos(b) && EncodedAll(a) == EncodedAll(b) && i <= |a|
    ensures |a| == |b| && a[..i] == b[..i]
  {
    hide EncodedAll, Sound;
    assert |Infos(a)| == |Infos(b)|;
    if i > 0 {
      PrefixesAgree(a, b, i - 1);
      assert Infos(a)[i - 1] == Infos(b)[i - 1];
      NextAgrees(a, b, i - 1);
    }
  }

  // ---- which buffers a layout describes ----

  /** The bytes are cut up by the infos without a rest. */
  predicate Parses(infos: seq<PropertyInfo>, data: Bytes) {
    if infos == [] then data == ""
    else
      match MetaAt(infos[0], data, 0)
      case None => false
      case Some(meta) => meta.span <= |data| && Parses(infos[1..], data[meta.span..])
  }

  /** Some well-formed list of named values has these infos and these bytes. */
  ghost predicate Describable(infos: seq<PropertyInfo>, data: Bytes) {
    exists ps :: WellFormed(ps) && Infos(ps) == infos && EncodedAll(ps) == data
  }

  ghost predicate AllSound(ps: seq<Property>) {
    forall i :: 0 <= i < |ps| ==> Sound(ps[i])
  }

  lemma EncodedFirst(ps: seq<Property>)
    requires ps != []
    ensures EncodedAll(ps) == Encoded(ps[0]) + EncodedAll(ps[1..])
  {
    assert ps == [ps[0]] + ps[1..];
    EncodedAppend([ps[0]], ps[1..]);
    EncodedOne(ps[0]);
  }

  lemma ParseStep(info: PropertyInfo, infos: seq<PropertyInfo>, data: Bytes)
    ensures Parses([info] + infos, data) <==>
            var meta := MetaAt(info, data, 0);
            meta.Some? && meta.value.span <= |data| && Parses(infos, data[meta.value.span..])
  {
    hide MetaAt;
    assert ([info] + infos)[1..] == infos;
  }

  /** A sound property in front is cut off as it is. */
  lemma ConsParses(p: Property, infos: seq<PropertyInfo>, data: Bytes)
    requires Sound(p)
    ensures Parses([p.info] + infos, Encoded(p) + data) <==> Parses(infos, data)
  {
    ParseStep(p.info, infos, Encoded(p) + data);
    MetaOfPacked(p, "", data);
    hide Encoded, MetaAt, Parses;
    assert "" + Encoded(p) + data == Encoded(p) + data;
    assert (Encoded(p) + data)[|Encoded(p)|..] == data;
  }

  lemma {:induction false} PackedParses(ps: seq<Property>)
    requires AllSound(ps)
    ensures Parses(Infos(ps), EncodedAll(ps))
  {
    if ps != [] {
      PackedParses(ps[1..]);
      EncodedFirst(ps);
      hide Encoded, EncodedAll, Parses, Sound;
      assert Infos(ps) == [ps[0].info] + Infos(ps[1..]);
      ConsParses(ps[0], Infos(ps[1..]), EncodedAll(ps[1..]));
    } else {
      assert Infos(ps) == [];
    }
  }

  /** Every character stands for one byte. */
  predicate AllBytes(s: Bytes) {
    forall i :: 0 <= i < |s| ==> s[i] < 256 as char
  }

  lemma LowByte(low: nat, high: nat)
    requires low < 256
    ensures (low + 256 * high) % 256 == low && (low + 256 * high) / 256 == high
  {
  }

  lemma {:induction false} LittleEndianInverse(s: Bytes)
    requires AllBytes(s)
    ensures LittleEndianValue(s) < Pow256(|s|) && LittleEndian(LittleEndianValue(s), |s|) == s
  {
    if s != "" {
      LittleEndianInverse(s[1..]);
      LowByte(s[0] as nat, LittleEndianValue(s[1..]));
      assert s == [s[0]] + s[1..];
    }
  }

  lemma FourByteInverse(s: Bytes)
    requires AllBytes(s) && |s| == 4
    ensures LittleEndianValue(s) < Text.TWO_32 && LittleEndian(LittleEndianValue(s), 4) == s
  {
    LittleEndianInverse(s);
    assert Pow256(4) == 256 * (256 * (256 * (256 * Pow256(0))));
  }

  /** The property that a layout step cuts off the front. */
  lemma CutFirst(info: PropertyInfo, data: Bytes) returns (p: Property)
    requires AllBytes(data) && MetaAt(info, data, 0).Some? && MetaAt(info, data, 0).value.span <= |data|
    ensures p.info == info && Sound(p) && Encoded(p) == data[..MetaAt(info, data, 0).value.span]
  {
    var span := MetaAt(info, data, 0).value.span;
    if SizeOf(info.typeName) > 0 {
      p := Property(info, data[..span]);
    } else {
      p := Property(info, data[4..span]);
      FourByteInverse(data[..4]);
      hide LittleEndian, LittleEndianValue;
      assert data[0..4] == data[..4] && data[..span] == data[..4] + data[4..span];
    }
  }

  lemma {:induction false} ParsedIsPacked(infos: seq<PropertyInfo>, data: Bytes) returns (ps: seq<Property>)
    requires AllBytes(data) && Parses(infos, data)
    ensures AllSound(ps) && Infos(ps) == infos && EncodedAll(ps) == data
  {
    if infos == [] {
      ps := [];
      assert Infos(ps) == infos;
    } else {
      hide MetaAt, Encoded, EncodedAll, Sound;
      var span := MetaAt(infos[0], data, 0).value.span;
      var first := CutFirst(infos[0], data);
      var rest := ParsedIsPacked(infos[1..], data[span..]);
      ps := [first] + rest;
      PutInFront(first, rest, infos, data, span);
    }
  }

  lemma InfosFront(p: Property, rest: seq<Property>)
    ensures Infos([p] + rest) == [p.info] + Infos(rest)
  {
  }

  lemma PutInFront(first: Property, rest: seq<Property>, infos: seq<PropertyInfo>, data: Bytes, span: nat)
    requires infos != [] && span <= |data| && AllSound(rest) && Sound(first) && first.info == infos[0]
    requires Encoded(first) == data[..span] && Infos(rest) == infos[1..] && EncodedAll(rest) == data[span..]
    ensures AllSound([first] + rest) && Infos([first] + rest) == infos && EncodedAll([first] + rest) == data
  {
    hide Encoded, EncodedAll, Sound;
    var ps := [first] + rest;
    assert ps[1..] == rest;
    EncodedFirst(ps);
    InfosFront(first, rest);
    hide Infos;
    assert data == data[..span] + data[span..];
    assert infos == [infos[0]] + infos[1..];
  }

  predicate DistinctInfos(infos: seq<PropertyInfo>) {
    forall i, j :: 0 <= i < j < |infos| ==> infos[i].name != infos[j].name
  }

  /** A list of named values is behind infos and bytes exactly when the layout cuts the bytes up whole. */
  lemma DescribableExactly(infos: seq<PropertyInfo>, data: Bytes)
    requires AllBytes(data) && DistinctInfos(infos)
    ensures Describable(infos, data) <==> Parses(infos, data)
  {
    hide Parses, EncodedAll, Sound;
    if Parses(infos, data) {
      var ps := ParsedIsPacked(infos, data);
      assert forall i :: 0 <= i < |ps| ==> ps[i].info == infos[i];
    }
    if Describable(infos, data) {
      var ps :| WellFormed(ps) && Infos(ps) == infos && EncodedAll(ps) == data;
      PackedParses(ps);
    }
  }

  /** Sound properties in front do not matter to the rest. */
  lemma {:induction false} ParsesBehind(ps: seq<Property>, infos: seq<PropertyInfo>, data: Bytes)
    requires AllSound(ps)
    ensures Parses(Infos(ps) + infos, EncodedAll(ps) + data) <==> Parses(infos, data)
  {
    hide Parses, Encoded, Sound;
    if ps == [] {
      assert Infos(ps) + infos == infos && EncodedAll(ps) + data == data;
    } else {
      hide EncodedAll;
      var rest := ps[1..];
      ParsesBehind(rest, infos, data);
      EncodedFirst(ps);
      ConsParses(ps[0], Infos(rest) + infos, EncodedAll(rest) + data);
      assert EncodedAll(ps) + data == Encoded(ps[0]) + (EncodedAll(rest) + data);
      assert Infos(ps) + infos == [ps[0].info] + (Infos(rest) + infos);
    }
  }

  predicate AllFixed(infos: seq<PropertyInfo>) {
    forall i :: 0 <= i < |infos| ==> SizeOf(infos[i].typeName) > 0
  }

  function FixedSize(infos: seq<PropertyInfo>): nat {
    if infos == [] then 0 else SizeOf(infos[0].typeName) + FixedSize(infos[1..])
  }

  /** Fixed properties are cut up whole exactly when the size is right. */
  lemma {:induction false} FixedParses(infos: seq<PropertyInfo>, data: Bytes)
    requires AllFixed(infos)
    ensures Parses(infos, data) <==> |data| == FixedSize(infos)
  {
    if infos != [] {
      var size := SizeOf(infos[0].typeName);
      if size <= |data| { FixedParses(infos[1..], data[size..]); }
    }
  }

  lemma FixedWidth(p: Property)
    requires Sound(p) && SizeOf(p.info.typeName) > 0
    ensures |Encoded(p)| == SizeOf(p.info.typeName)
  {
  }

  lemma FixedRest(ps: seq<Property>)
    requires ps != [] && AllFixed(Infos(ps))
    ensures Infos(ps)[1..] == Infos(ps[1..]) && Infos(ps)[0] == ps[0].info && AllFixed(Infos(ps[1..]))
  {
    assert forall i :: 0 <= i < |ps| - 1 ==> Infos(ps)[1..][i] == Infos(ps)[i + 1];
  }

  lemma {:induction false} FixedEncoded(ps: seq<Property>)
    requires AllSound(ps) && AllFixed(Infos(ps))
    ensures |EncodedAll(ps)| == FixedSize(Infos(ps))
  {
    if ps != [] {
      EncodedFirst(ps);
      FixedWidth(ps[0]);
      hide EncodedAll, Encoded, Sound, SizeOf;
      FixedRest(ps);
      hide Infos, AllFixed;
      FixedEncoded(ps[1..]);
    }
  }

  /** What inserting a span under a type name leaves: the infos, and the bytes of a length and the span. */
  function SpanInfos(ps: seq<Property>, at: nat, info: PropertyInfo): seq<PropertyInfo>
    requires at <= |ps|
  {
    Infos(ps[..at]) + ([info] + Infos(ps[at..]))
  }

  function SpanTail(ps: seq<Property>, at: nat, data: Bytes): Bytes
    requires at <= |ps|
  {
    LittleEndian(|data|, 4) + data + EncodedAll(ps[at..])
  }

  /** Whether the bytes from the inserted span on are cut up whole when its type is taken at its word. */
  predicate SpanFits(ps: seq<Property>, at: nat, typeName: string, data: Bytes)
    requires at <= |ps|
  {
    SizeOf(typeName) == 0
    || (SizeOf(typeName) <= |SpanTail(ps, at, data)|
        && Parses(Infos(ps[at..]), SpanTail(ps, at, data)[SizeOf(typeName)..]))
  }

  lemma SpanTailParses(ps: seq<Property>, at: nat, info: PropertyInfo, data: Bytes)
    requires at <= |ps| && AllSound(ps[at..]) && |data| < Text.TWO_32
    ensures Parses([info] + Infos(ps[at..]), SpanTail(ps, at, data)) <==> SpanFits(ps, at, info.typeName, data)
  {
    hide LittleEndian, EncodedAll, Parses;
    if SizeOf(info.typeName) == 0 {
      var p := Property(info, data);
      ConsParses(p, Infos(ps[at..]), EncodedAll(ps[at..]));
      PackedParses(ps[at..]);
    } else {
      ParseStep(info, Infos(ps[at..]), SpanTail(ps, at, data));
    }
  }

  /**
   A span inserted under any type name leaves infos and bytes of some list of named values exactly when the
   type has variable size, or when the bytes behind a fixed value happen to be cut up whole again.  With
   fixed properties alone behind it that is when the fixed size is that of the length and the span.
   */
  lemma SpanDescribableExactly(ps: seq<Property>, at: nat, info: PropertyInfo, data: Bytes)
    requires WellFormed(ps) && at <= |ps| && |data| < Text.TWO_32 && Find(ps, info.name) == None
    requires AllBytes(EncodedAll(ps[..at]) + SpanTail(ps, at, data))
    ensures Describable(SpanInfos(ps, at, info), EncodedAll(ps[..at]) + SpanTail(ps, at, data))
            <==> SpanFits(ps, at, info.typeName, data)
    ensures AllFixed(Infos(ps[at..])) ==>
              (SpanFits(ps, at, info.typeName, data) <==> SizeOf(info.typeName) == 0 || 4 + |data| == SizeOf(info.typeName))
  {
    SpanInfosDistinct(ps, at, info);
    hide Find;
    DescribableExactly(SpanInfos(ps, at, info), EncodedAll(ps[..at]) + SpanTail(ps, at, data));
    ParsesBehind(ps[..at], [info] + Infos(ps[at..]), SpanTail(ps, at, data));
    SpanTailParses(ps, at, info, data);
    if AllFixed(Infos(ps[at..])) {
      FixedEncoded(ps[at..]);
      var tail := SpanTail(ps, at, data);
      assert |tail| == 4 + |data| + FixedSize(Infos(ps[at..]));
      if 0 < SizeOf(info.typeName) <= |tail| { FixedParses(Infos(ps[at..]), tail[SizeOf(info.typeName)..]); }
    }
  }

  lemma SpanInfosInserted(ps: seq<Property>, at: nat, info: PropertyInfo)
    requires at <= |ps|
    ensures SpanInfos(ps, at, info) == Infos(ps)[..at] + [info] + Infos(ps)[at..]
  {
    SpanInfosAre(ps, at, info);
    hide SpanInfos;
  }

  /** What a rebuild with a span of variable size puts into the buffer. */
  lemma SpanBytes(ps: seq<Property>, at: nat, name: string, typeName: string, data: Bytes)
    requires at <= |ps| && SizeOf(typeName) == 0
    ensures EncodedAll(Changed(ps, Insert(at, Property(PropertyInfo(typeName, name), data)))) ==
            EncodedAll(ps[..at]) + SpanTail(ps, at, data)
  {
    var p := Property(PropertyInfo(typeName, name), data);
    InsertIs(ps, at, p);
    EncodedOne(p);
    hide EncodedAll, LittleEndian, Changed;
    EncodedAppend(ps[..at] + [p], ps[at..]);
    EncodedAppend(ps[..at], [p]);
    hide SizeOf;
    var front, own, rest := EncodedAll(ps[..at]), LittleEndian(|data|, 4) + data, EncodedAll(ps[at..]);
    assert (front + own) + rest == front + (own + rest);
  }

  lemma SpanInfosAre(ps: seq<Property>, at: nat, info: PropertyInfo)
    requires at <= |ps|
    ensures var r := SpanInfos(ps, at, info);
            && |r| == |ps| + 1 && r[at] == info
            && (forall i :: 0 <= i < at ==> r[i] == ps[i].info) && (forall i :: at < i < |r| ==> r[i] == ps[i - 1].info)
  {
  }

  lemma SpanInfosDistinct(ps: seq<Property>, at: nat, info: PropertyInfo)
    requires WellFormed(ps) && at <= |ps| && Find(ps, info.name) == None
    ensures DistinctInfos(SpanInfos(ps, at, info))
  {
    FindNone(ps, info.name);
    SpanInfosAre(ps, at, info);
    hide Find, Sound, SpanInfos;
  }

  /** A one-byte type never fits in front of fixed properties, and a four-byte one fits an empty span. */
  lemma BoolSpanIsLost(ps: seq<Property>, at: nat, name: string, data: Bytes)
    requires WellFormed(ps) && at <= |ps| && |data| < Text.TWO_32 && Find(ps, name) == None
    requires AllBytes(EncodedAll(ps[..at]) + SpanTail(ps, at, data)) && AllFixed(Infos(ps[at..]))
    ensures var bytes := EncodedAll(ps[..at]) + SpanTail(ps, at, data);
            && !Describable(SpanInfos(ps, at, PropertyInfo("bool", name)), bytes)
            && (Describable(SpanInfos(ps, at, PropertyInfo("float", name)), bytes) <==> data == "")
  {
    SpanDescribableExactly(ps, at, PropertyInfo("bool", name), data);
    SpanDescribableExactly(ps, at, PropertyInfo("float", name), data);
    hide Describable, SpanFits, EncodedAll, AllBytes, WellFormed, Find;
  }
}
