/**
  A finite, immutable model of the .NET reflection metadata the generic-hierarchy
  matcher reads: each type's identity, naming, class/abstract/interface flags, generic
  definition and arguments, base type, implemented interfaces and the
  `BeforeFieldInit` attribute.

  Type identity (`Type ==` in C#) is id equality. Ids also serve as the depth measure
  of the base-type chain: a well-formed universe numbers every base type below the
  types deriving from it, which any finite, acyclic inheritance forest admits.
  `object` is the distinguished root with id 0, so it can have no base type.
*/
module TypeUniverse {
  import opened Wrappers

  type TypeId = nat

  /** The id of `typeof(object)`. */
  const ObjectId: TypeId := 0

  /**
    One reflected type.
    - `genericDefinition` is `None` for a non-generic type, `Some(d)` for an
      instantiation of the open definition `d`, and `Some(id)` for an open definition.
    - `genericArguments` are the bound arguments of an instantiation, or the type
      parameters of an open definition.
    - `interfaces` is everything `GetInterfaces()` reports, inherited ones included.
    - `beforeFieldInit` is whether `Attributes` carries `TypeAttributes.BeforeFieldInit`.
  */
  datatype TypeInfo = TypeInfo(
    id: TypeId,
    name: string,
    namespace: string,
    assembly: string,
    isClass: bool,
    isAbstract: bool,
    isInterface: bool,
    genericDefinition: Option<TypeId>,
    genericArguments: seq<TypeId>,
    baseType: Option<TypeId>,
    interfaces: set<TypeId>,
    beforeFieldInit: bool)

  /** Every type the matcher can reach, keyed by id. */
  type Universe = map<TypeId, TypeInfo>

  /** The facts the CLR guarantees about one loaded type. */
  predicate ValidEntry(u: Universe, id: TypeId)
    requires id in u
  {
    var t := u[id];
    && t.id == id
    && (t.baseType.Some? ==>
          && t.baseType.value in u
          && t.baseType.value < id
          && !u[t.baseType.value].isInterface)
    && t.interfaces <= u.Keys
    && (forall a :: a in t.genericArguments ==> a in u)
    && (t.genericDefinition.Some? ==>
          var d := t.genericDefinition.value;
          && d in u
          && u[d].genericDefinition == Some(d)
          && u[d].isInterface == t.isInterface)
  }

  /**
    The universe holds `object`, is closed under every reference a type makes, and its
    base chains are acyclic.
  */
  predicate Valid(u: Universe) {
    && ObjectId in u
    && forall id :: id in u ==> ValidEntry(u, id)
  }

  /**
    `GetFullTypeDefinition`: a generic type reduces to its open definition, anything
    else is returned as it is. The result is always a fixed point of the reduction.
  */
  function FullTypeDefinition(u: Universe, t: TypeId): (d: TypeId)
    requires Valid(u) && t in u
    ensures d in u
    ensures u[t].genericDefinition.None? ==> d == t
    ensures u[t].genericDefinition.Some? ==> u[d].genericDefinition == Some(d)
    ensures u[d].isInterface == u[t].isInterface
  {
    match u[t].genericDefinition
    case None => t
    case Some(def) => def
  }

  /** Reducing twice is reducing once. */
  lemma FullTypeDefinitionIdempotent(u: Universe, t: TypeId)
    requires Valid(u) && t in u
    ensures FullTypeDefinition(u, FullTypeDefinition(u, t)) == FullTypeDefinition(u, t)
  {
  }

  /**
    `Type.IsSubclassOf`: `p` is a proper ancestor of `c` along base types (interfaces do
    not count), and every type other than `object` is a subclass of `object`, interfaces
    included although they have no base type. Every ancestor has a smaller id, so no
    type is a subclass of itself.
  */
  function IsSubclassOf(u: Universe, c: TypeId, p: TypeId): (r: bool)
    requires Valid(u) && c in u
    ensures r ==> p in u && p < c
    ensures c != ObjectId && p == ObjectId ==> r
    decreases c
  {
    if c == ObjectId then false
    else if p == ObjectId then true
    else
      match u[c].baseType
      case None => false
      case Some(b) => b == p || IsSubclassOf(u, b, p)
  }

  /** The subclass relation is transitive. */
  lemma {:induction false} IsSubclassOfTransitive(u: Universe, a: TypeId, b: TypeId, c: TypeId)
    requires Valid(u) && a in u && b in u
    requires IsSubclassOf(u, a, b) && IsSubclassOf(u, b, c)
    ensures IsSubclassOf(u, a, c)
    decreases a
  {
    if c != ObjectId {
      assert b != ObjectId;
      var base := u[a].baseType.value;
      if base != b {
        IsSubclassOfTransitive(u, base, b, c);
      }
    }
  }

  /**
    The steps the matcher's loop visits from `t`: `t`, its base, that base's base, and so
    on, stopping before `object` or at a type without a base.
  */
  function Chain(u: Universe, t: TypeId): (s: seq<TypeId>)
    requires Valid(u) && t in u
    ensures forall k :: 0 <= k < |s| ==> s[k] in u && s[k] != ObjectId
    ensures t == ObjectId <==> s == []
    ensures t != ObjectId ==> s[0] == t
    ensures forall k :: 0 <= k < |s| - 1 ==> u[s[k]].baseType == Some(s[k + 1])
    ensures |s| > 0 ==> u[s[|s| - 1]].baseType in {None, Some(ObjectId)}
    decreases t
  {
    if t == ObjectId then []
    else
      match u[t].baseType
      case None => [t]
      case Some(b) => [t] + Chain(u, b)
  }

  /**
    Apart from `object`, which the walk never visits, the proper ancestors of `c` are
    exactly the chain steps after the first.
  */
  lemma {:induction false} SubclassIffLaterChainStep(u: Universe, c: TypeId, p: TypeId)
    requires Valid(u) && c in u && p != ObjectId
    ensures IsSubclassOf(u, c, p) <==> exists k :: 0 < k < |Chain(u, c)| && Chain(u, c)[k] == p
    decreases c
  {
    var s := Chain(u, c);
    match u[c].baseType
    case None =>
    case Some(b) =>
      assert c != ObjectId;
      assert s == [c] + Chain(u, b);
      assert s[1..] == Chain(u, b);
      if b == ObjectId {
        assert s == [c];
      } else {
        SubclassIffLaterChainStep(u, b, p);
        var t := Chain(u, b);
        if IsSubclassOf(u, c, p) {
          if b == p {
            assert s[1] == p;
          } else {
            var k :| 0 < k < |t| && t[k] == p;
            assert s[k + 1] == p;
          }
        }
        if exists k :: 0 < k < |s| && s[k] == p {
          var k :| 0 < k < |s| && s[k] == p;
          if k > 1 {
            assert t[k - 1] == p;
          }
        }
      }
  }
}
