/**
 * Cache key construction (RedisEntityCache._key and the builders derived from
 * it). A key is "<type>:<id>[:<related type>][:<suffix>]".
 */
module Keys {
  import opened Wrappers

  /** The entity types the cache is instantiated with. */
  datatype EntityType = Topic | Category | Tag | Translation | TopicTranslation

  /** EntityType.value: the string used inside keys. */
  function TypeName(t: EntityType): string
  {
    match t
    case Topic => "topic"
    case Category => "category"
    case Tag => "tag"
    case Translation => "translation"
    case TopicTranslation => "topic-translation"
  }

  predicate IsTypeName(s: string)
  {
    s in {"topic", "category", "tag", "translation", "topic-translation"}
  }

  predicate NoColon(s: string)
  {
    forall i :: 0 <= i < |s| ==> s[i] != ':'
  }

  /** Decimal digits of a natural number, most significant first, as Python's
      str() of a non-negative int. */
  function NatString(n: nat): (s: string)
    ensures |s| >= 1 && (n < 10 <==> |s| == 1)
    ensures forall i :: 0 <= i < |s| ==> '0' <= s[i] <= '9'
  {
    if n < 10 then ["0123456789"[n]] else NatString(n / 10) + ["0123456789"[n % 10]]
  }

  /** f"{entity_id}" for a Python int: an optional minus sign, then the digits. */
  function IdString(id: int): string
  {
    if id < 0 then "-" + NatString(-id) else NatString(id)
  }

  /** RedisEntityCache._key, step by step as the source appends. */
  function Key(t: EntityType, id: int, rel: Option<EntityType>, suffix: Option<string>): string
  {
    var base := TypeName(t) + ":" + IdString(id);
    var withRel := if rel.Some? then base + ":" + TypeName(rel.value) else base;
    if suffix.Some? then withRel + ":" + suffix.value else withRel
  }

  function PrimaryKey(t: EntityType, id: int): string
  {
    Key(t, id, None, None)
  }

  function CascadeKey(t: EntityType, id: int): string
  {
    Key(t, id, None, Some("cascade"))
  }

  function RelationKey(t: EntityType, id: int, rel: EntityType): string
  {
    Key(t, id, Some(rel), None)
  }

  function BackRelationKey(t: EntityType, id: int): string
  {
    Key(t, id, None, Some("back-relation"))
  }

  /** The access-counter key used by incr, optionally scoped by a relation. */
  function CountKey(t: EntityType, id: int, rel: Option<EntityType>): string
  {
    Key(t, id, rel, Some("count"))
  }

  /** A suffix that can neither introduce a separator nor be mistaken for a
      related type. */
  predicate SuffixOk(suffix: Option<string>)
  {
    suffix.None? || (NoColon(suffix.value) && !IsTypeName(suffix.value))
  }

  // ---------------------------------------------------------------------------
  // Segments: a key is the colon-join of colon-free parts.

  /** Joins parts left to right with ':' (the way _key appends). */
  function Join(parts: seq<string>): string
    requires |parts| >= 1
  {
    if |parts| == 1 then parts[0] else Join(parts[..|parts| - 1]) + ":" + parts[|parts| - 1]
  }

  function Segments(t: EntityType, id: int, rel: Option<EntityType>, suffix: Option<string>): (parts: seq<string>)
    ensures 2 <= |parts| <= 4
  {
    [TypeName(t), IdString(id)]
      + (if rel.Some? then [TypeName(rel.value)] else [])
      + (if suffix.Some? then [suffix.value] else [])
  }

  lemma TypeNameFacts(t: EntityType)
    ensures NoColon(TypeName(t)) && IsTypeName(TypeName(t)) && |TypeName(t)| > 0
  {
  }

  lemma TypeNameInjective(a: EntityType, b: EntityType)
    ensures TypeName(a) == TypeName(b) ==> a == b
  {
  }

  lemma IdStringNoColon(id: int)
    ensures NoColon(IdString(id))
  {
  }

  /** Distinct naturals have distinct decimal renderings. */
  lemma {:induction false} NatStringInjective(a: nat, b: nat)
    requires NatString(a) == NatString(b)
    ensures a == b
  {
    var sa, sb := NatString(a), NatString(b);
    if a >= 10 && b >= 10 {
      assert NatString(a / 10) == sa[..|sa| - 1] == sb[..|sb| - 1] == NatString(b / 10);
      NatStringInjective(a / 10, b / 10);
      assert "0123456789"[a % 10] == sa[|sa| - 1] == sb[|sb| - 1] == "0123456789"[b % 10];
    } else {
      assert a < 10 && b < 10;
      assert "0123456789"[a] == sa[0] == sb[0] == "0123456789"[b];
    }
  }

  lemma IdStringSign(id: int)
    ensures |IdString(id)| >= 1 && (IdString(id)[0] == '-' <==> id < 0)
  {
  }

  /** Distinct ids give distinct id strings. */
  lemma IdStringInjective(a: int, b: int)
    requires IdString(a) == IdString(b)
    ensures a == b
  {
    var sa, sb := IdString(a), IdString(b);
    IdStringSign(a);
    IdStringSign(b);
    if a < 0 && b < 0 {
      assert NatString(-a) == sa[1..] == sb[1..] == NatString(-b);
      NatStringInjective(-a, -b);
    } else if a >= 0 && b >= 0 {
      NatStringInjective(a, b);
    }
  }

  lemma {:induction false} JoinHasColon(parts: seq<string>)
    requires |parts| >= 2
    ensures !NoColon(Join(parts))
  {
    var j := Join(parts[..|parts| - 1]);
    assert Join(parts)[|j|] == ':';
  }

  lemma ColonPositions(x: string, y: string)
    requires NoColon(y)
    ensures (x + ":" + y)[|x|] == ':'
    ensures forall j :: |x| < j < |x| + 1 + |y| ==> (x + ":" + y)[j] != ':'
  {
    forall j | |x| < j < |x| + 1 + |y|
      ensures (x + ":" + y)[j] != ':'
    {
      assert (x + ":" + y)[j] == y[j - |x| - 1];
    }
  }

  /** Splitting at the last separator: x:y == u:v with y and v colon-free
      forces x == u and y == v. */
  lemma SplitLast(x: string, y: string, u: string, v: string)
    requires NoColon(y) && NoColon(v)
    requires x + ":" + y == u + ":" + v
    ensures x == u && y == v
  {
    var s := x + ":" + y;
    ColonPositions(x, y);
    ColonPositions(u, v);
    assert |x| == |u|;
    assert x == s[..|x|] == u;
    assert y == s[|x| + 1..] == v;
  }

  /** Joining colon-free parts is injective. */
  lemma {:induction false} JoinInjective(a: seq<string>, b: seq<string>)
    requires |a| >= 1 && |b| >= 1
    requires forall i :: 0 <= i < |a| ==> NoColon(a[i])
    requires forall i :: 0 <= i < |b| ==> NoColon(b[i])
    requires Join(a) == Join(b)
    ensures a == b
  {
    if |a| == 1 && |b| == 1 {
    } else if |a| == 1 {
      JoinHasColon(b);
    } else if |b| == 1 {
      JoinHasColon(a);
    } else {
      var a', b' := a[..|a| - 1], b[..|b| - 1];
      SplitLast(Join(a'), a[|a| - 1], Join(b'), b[|b| - 1]);
      JoinInjective(a', b');
      assert a == a' + [a[|a| - 1]] && b == b' + [b[|b| - 1]];
    }
  }

  /** A key is the join of its segments. */
  lemma KeyIsJoin(t: EntityType, id: int, rel: Option<EntityType>, suffix: Option<string>)
    ensures Key(t, id, rel, suffix) == Join(Segments(t, id, rel, suffix))
  {
    var p := Segments(t, id, rel, suffix);
    assert p[..2] == [TypeName(t), IdString(id)];
    assert Join(p[..2]) == TypeName(t) + ":" + IdString(id);
    if rel.Some? && suffix.Some? {
      assert p[..3][..2] == p[..2];
    }
  }

  lemma SegmentsNoColon(t: EntityType, id: int, rel: Option<EntityType>, suffix: Option<string>)
    requires SuffixOk(suffix)
    ensures forall i :: 0 <= i < |Segments(t, id, rel, suffix)| ==> NoColon(Segments(t, id, rel, suffix)[i])
  {
    TypeNameFacts(t);
    IdStringNoColon(id);
    if rel.Some? {
      TypeNameFacts(rel.value);
    }
  }

  /** Equal keys have equal segments. */
  lemma KeySegmentsEqual(t1: EntityType, id1: int, rel1: Option<EntityType>, suffix1: Option<string>,
                         t2: EntityType, id2: int, rel2: Option<EntityType>, suffix2: Option<string>)
    requires SuffixOk(suffix1) && SuffixOk(suffix2)
    requires Key(t1, id1, rel1, suffix1) == Key(t2, id2, rel2, suffix2)
    ensures Segments(t1, id1, rel1, suffix1) == Segments(t2, id2, rel2, suffix2)
  {
    KeyIsJoin(t1, id1, rel1, suffix1);
    KeyIsJoin(t2, id2, rel2, suffix2);
    SegmentsNoColon(t1, id1, rel1, suffix1);
    SegmentsNoColon(t2, id2, rel2, suffix2);
    JoinInjective(Segments(t1, id1, rel1, suffix1), Segments(t2, id2, rel2, suffix2));
  }

  /** Equal segments come from equal components. */
  lemma SegmentsInjective(t1: EntityType, id1: int, rel1: Option<EntityType>, suffix1: Option<string>,
                          t2: EntityType, id2: int, rel2: Option<EntityType>, suffix2: Option<string>)
    requires SuffixOk(suffix1) && SuffixOk(suffix2)
    requires Segments(t1, id1, rel1, suffix1) == Segments(t2, id2, rel2, suffix2)
    ensures (t1, id1, rel1, suffix1) == (t2, id2, rel2, suffix2)
  {
    var p1, p2 := Segments(t1, id1, rel1, suffix1), Segments(t2, id2, rel2, suffix2);
    assert p1[0] == TypeName(t1) && p2[0] == TypeName(t2);
    assert p1[1] == IdString(id1) && p2[1] == IdString(id2);
    TypeNameInjective(t1, t2);
    IdStringInjective(id1, id2);
    if rel1.Some? {
      TypeNameFacts(rel1.value);
      assert p1[2] == TypeName(rel1.value);
    }
    if rel2.Some? {
      TypeNameFacts(rel2.value);
      assert p2[2] == TypeName(rel2.value);
    }
    if rel1.Some? && rel2.Some? {
      TypeNameInjective(rel1.value, rel2.value);
    }
    if suffix1.Some? {
      assert p1[|p1| - 1] == suffix1.value;
    }
    if suffix2.Some? {
      assert p2[|p2| - 1] == suffix2.value;
    }
  }

  /**
   * No two distinct logical keys collapse to the same string: two keys are
   * equal exactly when their type, id, related type and suffix are, as long as
   * the suffixes contain no separator and are not entity type names.
   */
  lemma KeyInjective(t1: EntityType, id1: int, rel1: Option<EntityType>, suffix1: Option<string>,
                     t2: EntityType, id2: int, rel2: Option<EntityType>, suffix2: Option<string>)
    requires SuffixOk(suffix1) && SuffixOk(suffix2)
    ensures Key(t1, id1, rel1, suffix1) == Key(t2, id2, rel2, suffix2)
        <==> (t1, id1, rel1, suffix1) == (t2, id2, rel2, suffix2)
  {
    if Key(t1, id1, rel1, suffix1) == Key(t2, id2, rel2, suffix2) {
      KeySegmentsEqual(t1, id1, rel1, suffix1, t2, id2, rel2, suffix2);
      SegmentsInjective(t1, id1, rel1, suffix1, t2, id2, rel2, suffix2);
    }
  }

  /** Every key built with a related type or a suffix extends key(id) + ":". */
  lemma KeyExtendsPrimary(t: EntityType, id: int, rel: Option<EntityType>, suffix: Option<string>)
    requires rel.Some? || suffix.Some?
    ensures var p := PrimaryKey(t, id) + ":";
            |p| <= |Key(t, id, rel, suffix)| && Key(t, id, rel, suffix)[..|p|] == p
  {
    var base := TypeName(t) + ":" + IdString(id);
    if rel.Some? && suffix.Some? {
      assert Key(t, id, rel, suffix) == base + ":" + (TypeName(rel.value) + ":" + suffix.value);
    } else if rel.Some? {
      assert Key(t, id, rel, suffix) == base + ":" + TypeName(rel.value);
    } else {
      assert Key(t, id, rel, suffix) == base + ":" + suffix.value;
    }
  }

  /** For a fixed entity type, distinct ids give distinct primary keys. */
  lemma PrimaryKeyInjective(t: EntityType, a: int, b: int)
    ensures PrimaryKey(t, a) == PrimaryKey(t, b) <==> a == b
  {
    KeyInjective(t, a, None, None, t, b, None, None);
  }

  /** For a fixed entity type, distinct ids give distinct back-relation keys. */
  lemma BackRelationKeyInjective(t: EntityType, a: int, b: int)
    ensures BackRelationKey(t, a) == BackRelationKey(t, b) <==> a == b
  {
    assert SuffixOk(Some("back-relation"));
    KeyInjective(t, a, None, Some("back-relation"), t, b, None, Some("back-relation"));
  }

  /**
   * The derived keys never meet: a primary key, a cascade key, a back-relation
   * key, a relation key and a counter key are pairwise different strings,
   * whatever types and ids they are built from.
   */
  lemma DerivedKeysDistinct(t1: EntityType, id1: int, t2: EntityType, id2: int, rel: EntityType, crel: Option<EntityType>)
    ensures PrimaryKey(t1, id1) != CascadeKey(t2, id2)
    ensures PrimaryKey(t1, id1) != BackRelationKey(t2, id2)
    ensures PrimaryKey(t1, id1) != RelationKey(t2, id2, rel)
    ensures PrimaryKey(t1, id1) != CountKey(t2, id2, crel)
    ensures CascadeKey(t1, id1) != RelationKey(t2, id2, rel)
    ensures BackRelationKey(t1, id1) != RelationKey(t2, id2, rel)
    ensures CascadeKey(t1, id1) != BackRelationKey(t2, id2)
    ensures CountKey(t1, id1, crel) != RelationKey(t2, id2, rel)
    ensures CountKey(t1, id1, crel) != CascadeKey(t2, id2)
    ensures CountKey(t1, id1, crel) != BackRelationKey(t2, id2)
  {
    var c, b, n := Some("cascade"), Some("back-relation"), Some("count");
    assert SuffixOk(c) && SuffixOk(b) && SuffixOk(n);
    KeyInjective(t1, id1, None, None, t2, id2, None, c);
    KeyInjective(t1, id1, None, None, t2, id2, None, b);
    KeyInjective(t1, id1, None, None, t2, id2, Some(rel), None);
    KeyInjective(t1, id1, None, None, t2, id2, crel, n);
    KeyInjective(t1, id1, None, c, t2, id2, Some(rel), None);
    KeyInjective(t1, id1, None, b, t2, id2, Some(rel), None);
    KeyInjective(t1, id1, None, c, t2, id2, None, b);
    KeyInjective(t1, id1, crel, n, t2, id2, Some(rel), None);
    KeyInjective(t1, id1, crel, n, t2, id2, None, c);
    KeyInjective(t1, id1, crel, n, t2, id2, None, b);
  }

  /** The key delete() builds for an owner's relation set, f"{owner}:{type}",
      is that owner's relation key for this type. */
  lemma OwnerRelationKey(ownerType: EntityType, ownerId: int, t: EntityType)
    ensures PrimaryKey(ownerType, ownerId) + ":" + TypeName(t) == RelationKey(ownerType, ownerId, t)
  {
  }
}
