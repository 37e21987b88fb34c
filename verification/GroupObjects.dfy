/** Group objects on the heap and the size pass over them, src/blink_object.c:1514-1630. The
    size cache is the one field the passes change. */
module GroupObjects {
  import opened Base
  import opened Objects
  import opened ObjectEncode
  import Vlc

  /** union blink_object_value: a plain value or a pointer to a group object. */
  datatype ValueNode = Plain(v: Value) | Pointer(g: GroupObject)

  datatype DataNode = One(v: ValueNode) | Many(count: uint32, elems: seq<ValueNode>)

  datatype FieldNode = FieldNode(def: FieldDef, initialised: bool, data: DataNode)

  /** The values the passes visit. */
  function Nodes(f: FieldNode): seq<ValueNode> {
    if !f.initialised then []
    else match f.data
      case One(v) => [v]
      case Many(_, elems) => elems
  }

  /** The group objects among them. */
  ghost function Kids(ns: seq<ValueNode>): set<GroupObject> {
    set n | n in ns && n.Pointer? :: n.g
  }

  /** A field and its value, the objects it points to being finished. */
  ghost predicate Fits(n: FieldNode, f: Field) {
    && n.def == f.def && n.initialised == f.initialised && n.data.Many? == f.data.Sequence?
    && (n.data.Many? ==> n.data.count == f.data.count)
    && |Nodes(n)| == |Values(f)|
    && forall k :: 0 <= k < |Nodes(n)| ==>
         match Nodes(n)[k]
         case Plain(w) => w == Values(f)[k] && !w.Nested?
         case Pointer(g) => Values(f)[k] == Nested(g.content) && g.Valid()
  }

  /** All objects below a list of fields. */
  ghost function Under(fields: seq<FieldNode>): set<GroupObject> {
    set i, g, m | 0 <= i < |fields| && g in Kids(Nodes(fields[i])) && m in g.Repr :: m
  }

  lemma UnderHas(fields: seq<FieldNode>, i: nat, g: GroupObject)
    requires i < |fields| && Pointer(g) in Nodes(fields[i])
    ensures g.Repr <= Under(fields)
  {
    assert g in Kids(Nodes(fields[i])) by { assert Pointer(g).g == g; }
  }

  /** The caches of these objects hold what the size pass computes, and whatever one of them
      points to is among them. */
  ghost predicate Cached(done: set<GroupObject>)
    reads done
  {
    forall m :: m in done ==> m.Valid() && m.size == CachedSize(m.content) && m.KidsIn(|m.fields|, done)
  }

  /** A size so far, plus what is still to come. */
  ghost function Plus(acc: nat, rest: Option<nat>): Option<nat> {
    if rest.None? then None else Some(acc + rest.value)
  }

  lemma WrapAdd(a: nat, b: nat)
    ensures (a % TWO_32 + b) % TWO_32 == (a + b) % TWO_32
  {
    var q, r := a / TWO_32, a % TWO_32;
    var q2, r2 := (r + b) / TWO_32, (r + b) % TWO_32;
    assert a + b == TWO_32 * (q + q2) + r2;
    Vlc.ModUnique(a + b, TWO_32, q + q2, r2);
  }

  /** struct blink_object. Two fields may point to the same group object; nothing points back
      up. `content` is the object as a value. */
  class GroupObject {
    const def: GroupDef
    const fields: seq<FieldNode>
    var size: uint32
    ghost const content: Obj
    ghost const Repr: set<GroupObject>

    ghost predicate Valid()
      decreases content, 1
    {
      && this in Repr && def == content.def && |fields| == |content.fields|
      && forall i :: 0 <= i < |fields| ==> ValidField(i)
    }

    ghost predicate ValidField(i: nat)
      requires i < |fields| && |fields| == |content.fields|
      decreases content, 0
    {
      var n, f := fields[i], content.fields[i];
      && n.def == f.def && n.initialised == f.initialised && n.data.Many? == f.data.Sequence?
      && (n.data.Many? ==> n.data.count == f.data.count)
      && |Nodes(n)| == |Values(f)|
      && forall k :: 0 <= k < |Nodes(n)| ==> ValidValue(Nodes(n)[k], Values(f)[k])
    }

    ghost predicate ValidValue(n: ValueNode, v: Value)
      decreases v
    {
      match n
      case Plain(w) => w == v && !v.Nested?
      case Pointer(g) => v.Nested? && g.content == v.g && g.Repr <= Repr && this !in g.Repr && g.Valid()
    }

    /** A group object over finished ones. */
    constructor (def: GroupDef, fields: seq<FieldNode>, ghost content: Obj)
      requires def == content.def && |fields| == |content.fields|
      requires forall i :: 0 <= i < |fields| ==> Fits(fields[i], content.fields[i])
      ensures Valid() && this.def == def && this.fields == fields && this.content == content
    {
      this.def, this.fields, this.content, size := def, fields, content, 0;
      Repr := {this} + Under(fields);
      new;
      forall i | 0 <= i < |fields| ensures ValidField(i) {
        forall k | 0 <= k < |Nodes(fields[i])| ensures ValidValue(Nodes(fields[i])[k], Values(content.fields[i])[k]) {
          var n := Nodes(fields[i])[k];
          assert n in Nodes(fields[i]);
          if n.Pointer? { UnderHas(fields, i, n.g); }
        }
      }
    }

    /** What the first i fields point to. */
    ghost predicate KidsIn(i: nat, done: set<GroupObject>)
      requires i <= |fields|
    {
      forall k :: 0 <= k < i ==> Kids(Nodes(fields[k])) <= done
    }

    /** Objects below this one whose caches are known to be right. */
    ghost predicate Prior(done: set<GroupObject>)
      reads done
    {
      done <= Repr && this !in done && Cached(done)
    }

    /** One `size +=` on an uint32_t. */
    method Add(n: nat, ghost acc: nat)
      requires size == acc % TWO_32
      modifies this
      ensures size == (acc + n) % TWO_32
    {
      WrapAdd(acc, n);
      size := (size + n) % TWO_32;
    }

    /** The three additions for a group object, src/blink_object.c:1589-1604. */
    method AddGroup(def: FieldDef, g: GroupObject, ghost acc: nat) returns (ghost acc': nat)
      requires size == acc % TWO_32 && g != this && g.def == g.content.def && SizeOf(g.content, true) == Some(g.size)
      modifies this
      ensures acc' == acc + ValueSize(def, Nested(g.content), true).value && size == acc' % TWO_32
    {
      hide SizeOf, Vlc.SizeofUnsigned;
      Add(g.size, acc);
      acc' := acc + g.size;
      if def.ty.TDynamicGroup? {
        var sizeID := if g.def.id.Some? then Vlc.SizeofUnsigned(g.def.id.value) else 1;
        Add(sizeID, acc');
        acc' := acc' + sizeID;
        var prefix := Vlc.SizeofUnsigned((sizeID + g.size) % TWO_32);
        Add(prefix, acc');
        acc' := acc' + prefix;
      }
    }

    /** The switch of cacheSize on one value. */
    method CacheValue(def: FieldDef, n: ValueNode, ghost v: Value, ghost acc: nat, ghost done: set<GroupObject>)
      returns (ok: bool, ghost acc': nat, ghost done': set<GroupObject>)
      requires Valid() && ValidValue(n, v) && v < content && size == acc % TWO_32 && Prior(done)
      modifies Repr
      ensures ok == ValueSize(def, v, true).Some?
      ensures ok ==> acc' == acc + ValueSize(def, v, true).value && size == acc' % TWO_32
      ensures ok ==> Prior(done') && done <= done' && Kids([n]) <= done'
      ensures ok ==> forall m :: m in Repr && m != this && m !in done' ==> m.size == old(m.size)
      decreases content, 0
    {
      hide SizeOf, Vlc.SizeofUnsigned, Vlc.SizeofSigned, ValidField;
      acc', done', ok := acc, done, true;
      match n
      case Plain(w) =>
        var k := ValueSize(def, w, true).value;
        Add(k, acc);
        acc' := acc + k;
      case Pointer(g) =>
        ghost var below;
        ok, below := g.CacheSize();
        if ok {
          done' := done + below;
          acc' := AddGroup(def, g, acc);
        }
    }

    /** The do-while loop of cacheSize over the values of a field. */
    method CacheValues(def: FieldDef, ns: seq<ValueNode>, ghost vs: seq<Value>, ghost acc: nat,
                       ghost done: set<GroupObject>)
      returns (ok: bool, ghost acc': nat, ghost done': set<GroupObject>)
      requires Valid() && |ns| == |vs| && (forall k :: 0 <= k < |ns| ==> ValidValue(ns[k], vs[k]) && vs[k] < content)
      requires size == acc % TWO_32 && Prior(done)
      modifies Repr
      ensures ok == ValuesSize(def, vs, true).Some?
      ensures ok ==> acc' == acc + ValuesSize(def, vs, true).value && size == acc' % TWO_32
      ensures ok ==> Prior(done') && done <= done' && Kids(ns) <= done'
      ensures ok ==> forall m :: m in Repr && m != this && m !in done' ==> m.size == old(m.size)
      decreases content, 1
    {
      hide ValueSize, ValidField, ValidValue, Cached;
      acc', done', ok := acc, done, true;
      var k := 0;
      while k < |ns|
        invariant k <= |ns| && size == acc' % TWO_32 && Prior(done') && done <= done' && Kids(ns[..k]) <= done'
        invariant Plus(acc, ValuesSize(def, vs, true)) == Plus(acc', ValuesSize(def, vs[k..], true))
        invariant forall m :: m in Repr && m != this && m !in done' ==> m.size == old(m.size)
      {
        assert vs[k..][1..] == vs[k + 1..];
        assert ns[..k + 1] == ns[..k] + [ns[k]];
        ok, acc', done' := CacheValue(def, ns[k], vs[k], acc', done');
        if !ok {
          return;
        }
        k := k + 1;
      }
      assert ns[..k] == ns;
    }

    /** One turn of the field loop. */
    method CacheField(i: nat, ghost acc: nat, ghost done: set<GroupObject>)
      returns (ok: bool, ghost acc': nat, ghost done': set<GroupObject>)
      requires Valid() && i < |fields| && size == acc % TWO_32 && Prior(done)
      modifies Repr
      ensures ok == FieldSize(content.fields[i], true).Some?
      ensures ok ==> acc' == acc + FieldSize(content.fields[i], true).value && size == acc' % TWO_32
      ensures ok ==> Prior(done') && done <= done' && Kids(Nodes(fields[i])) <= done'
      ensures ok ==> forall m :: m in Repr && m != this && m !in done' ==> m.size == old(m.size)
      decreases content, 2
    {
      hide ValidValue, Cached, ValuesSize, ValueSize;
      ghost var f := content.fields[i];
      assert ValidField(i);
      acc', done', ok := acc, done, true;
      if fields[i].initialised {
        if fields[i].data.Many? {
          var head := Vlc.SizeofUnsigned(fields[i].data.count);
          Add(head, acc);
          acc' := acc + head;
        }
        ghost var base := acc';
        ok, acc', done' := CacheValues(fields[i].def, Nodes(fields[i]), Values(f), acc', done');
        OneValue(f.def, Values(f));
      } else if fields[i].def.isOptional {
        Add(1, acc);
        acc' := acc + 1;
      } else {
        ok := false;
      }
    }

    /** cacheSize: fails exactly when a mandatory field below is uninitialised; otherwise every
        object below, and this one, caches the size of its body. */
    method CacheSize() returns (ok: bool, ghost done: set<GroupObject>)
      requires Valid()
      modifies Repr
      ensures ok == SizeOf(content, true).Some?
      ensures ok ==> this in done && done <= Repr && Cached(done) && size == SizeOf(content, true).value
      ensures ok ==> forall m :: m in Repr && m !in done ==> m.size == old(m.size)
      decreases content, 3
    {
      hide ValidField, Cached, FieldSize;
      ghost var acc: nat := 0;
      size := 0;
      done, ok := {}, true;
      assert Cached({}) by { NoneCached(); }
      var i := 0;
      while i < |fields|
        invariant i <= |fields| && size == acc % TWO_32 && Prior(done) && KidsIn(i, done)
        invariant FieldsSize(content.fields, true) == Plus(acc, FieldsSize(content.fields[i..], true))
        invariant forall m :: m in Repr && m != this && m !in done ==> m.size == old(m.size)
      {
        assert content.fields[i..][1..] == content.fields[i + 1..];
        ok, acc, done := CacheField(i, acc, done);
        if !ok {
          return;
        }
        i := i + 1;
      }
      CachedThis(done);
      done := done + {this};
    }

    lemma CachedThis(done: set<GroupObject>)
      requires Valid() && Prior(done) && KidsIn(|fields|, done) && size == CachedSize(content)
      ensures Cached(done + {this})
    {
      hide Valid, CachedSize;
    }
  }

  lemma NoneCached()
    ensures Cached({})
  {
  }

  /** A single value is a list of one. */
  lemma OneValue(def: FieldDef, vs: seq<Value>)
    ensures |vs| == 1 ==> ValuesSize(def, vs, true) == ValueSize(def, vs[0], true)
  {
    hide ValueSize;
    if |vs| == 1 { assert ValuesSize(def, vs[1..], true) == Some(0); }
  }
}
