/** Laying user overrides over a module's default settings, as far as a schema allows. */
module Overlay {
  import opened Wrappers

  /** A YAML value. `Empty` is any value other than a dictionary that Python takes for false. */
  datatype Value = Empty | Scalar(text: string) | Dict(items: map<string, Value>)

  /** `None` marks a leaf that may be overridden; anything but a dictionary or `None` is a mistake. */
  datatype Schema = Leaf | Sub(keys: map<string, Schema>) | Mistake

  predicate Falsy(v: Value) {
    v.Empty? || (v.Dict? && v.items == map[])
  }

  /** `_apply_overrides` runs through: the overrides are shaped like the schema wherever they meet it,
      and the settings have a dictionary wherever overrides go into one. */
  predicate Fits(settings: Value, overrides: Value, keys: map<string, Schema>)
    decreases overrides
  {
    Falsy(overrides) ||
    (overrides.Dict? &&
     forall k :: k in overrides.items && k in keys ==>
       settings.Dict? &&
       match keys[k]
       case Leaf => true
       case Sub(sub) => k in settings.items && Fits(settings.items[k], overrides.items[k], sub)
       case Mistake => false)
  }

  function Overlaid(settings: Value, overrides: Value, keys: map<string, Schema>): Value
    requires Fits(settings, overrides, keys)
    decreases overrides
  {
    if Falsy(overrides) || !settings.Dict? then settings
    else
      Dict(map k | k in settings.items.Keys + (overrides.items.Keys * keys.Keys) ::
             if k in overrides.items && k in keys
             then (if keys[k].Leaf? then overrides.items[k]
                   else Overlaid(settings.items[k], overrides.items[k], keys[k].keys))
             else settings.items[k])
  }

  /** One key's turn in the loop. */
  function KeyResult(settings: Value, overrides: Value, keys: map<string, Schema>, k: string): Option<Value>
    requires Fits(settings, overrides, keys) && settings.Dict? && overrides.Dict?
  {
    if k in overrides.items && k in keys then
      if keys[k].Leaf? then Some(overrides.items[k])
      else Some(Overlaid(settings.items[k], overrides.items[k], keys[k].keys))
    else if k in settings.items then Some(settings.items[k]) else None
  }

  lemma OverlaidAt(settings: Value, overrides: Value, keys: map<string, Schema>, k: string)
    requires Fits(settings, overrides, keys) && settings.Dict? && overrides.Dict?
    ensures Overlaid(settings, overrides, keys).Dict?
    ensures var r := Overlaid(settings, overrides, keys).items;
            KeyResult(settings, overrides, keys, k) == if k in r then Some(r[k]) else None
  {
  }

  /** `_apply_overrides`. Keys the schema does not know are skipped; a mistake in shape raises. */
  method ApplyOverrides(settings: Value, overrides: Value, keys: map<string, Schema>) returns (r: Option<Value>)
    ensures r.Some? <==> Fits(settings, overrides, keys)
    ensures r.None? <==> exists p :: ClashesAt(settings, overrides, keys, p)
    ensures r.Some? ==> r.value == Overlaid(settings, overrides, keys)
    decreases overrides
  {
    FitsIff(settings, overrides, keys);
    if Falsy(overrides) {
      return Some(settings);
    }
    if !overrides.Dict? {
      return None;
    }
    var current := settings;
    var left := overrides.items.Keys;
    while left != {}
      invariant left <= overrides.items.Keys
      invariant current.Dict? <==> settings.Dict?
      invariant !settings.Dict? ==> current == settings
      invariant forall k :: k in overrides.items && k !in left && k in keys ==>
                  settings.Dict? && KeyFits(settings, overrides, keys, k)
      invariant settings.Dict? ==>
                  forall k :: if k in left || k !in overrides.items || k !in keys
                              then (k in current.items <==> k in settings.items)
                                   && (k in settings.items ==> current.items[k] == settings.items[k])
                              else k in current.items && current.items[k] ==
                                     if keys[k].Leaf? then overrides.items[k]
                                     else Overlaid(settings.items[k], overrides.items[k], keys[k].keys)
      decreases left
    {
      var k :| k in left;
      left := left - {k};
      if k in keys {
        match keys[k] {
          case Leaf =>
            if !current.Dict? {
              return None;
            }
            current := Dict(current.items[k := overrides.items[k]]);
          case Sub(sub) =>
            if !current.Dict? || k !in current.items {
              return None;
            }
            var inner := ApplyOverrides(current.items[k], overrides.items[k], sub);
            if inner.None? {
              return None;
            }
            current := Dict(current.items[k := inner.value]);
          case Mistake =>
            return None;
        }
      }
    }
    assert Fits(settings, overrides, keys);
    if settings.Dict? {
      var result := Overlaid(settings, overrides, keys);
      forall k ensures k in current.items <==> k in result.items
               ensures k in current.items ==> current.items[k] == result.items[k]
      {
        OverlaidAt(settings, overrides, keys, k);
      }
      assert current.items == result.items;
    }
    return Some(current);
  }

  predicate KeyFits(settings: Value, overrides: Value, keys: map<string, Schema>, k: string)
    requires settings.Dict? && overrides.Dict? && k in overrides.items && k in keys
  {
    match keys[k]
    case Leaf => true
    case Sub(sub) => k in settings.items && Fits(settings.items[k], overrides.items[k], sub)
    case Mistake => false
  }

  // ---------------------------------------------------------------- what is found where

  type Path = seq<string>

  function At(v: Value, p: Path): Option<Value>
    decreases |p|
  {
    if p == [] then Some(v)
    else if v.Dict? && p[0] in v.items then At(v.items[p[0]], p[1..])
    else None
  }

  predicate IsLeaf(keys: map<string, Schema>, p: Path)
    decreases |p|
  {
    && p != [] && p[0] in keys
    && match keys[p[0]]
       case Leaf => |p| == 1
       case Sub(sub) => IsLeaf(sub, p[1..])
       case Mistake => false
  }

  /** The overrides supply a value at this leaf of the schema. */
  predicate Supplied(overrides: Value, keys: map<string, Schema>, p: Path) {
    IsLeaf(keys, p) && At(overrides, p).Some?
  }

  /** A schema leaf that the overrides supply takes the override. */
  lemma {:induction false} SuppliedLeafIsOverride(settings: Value, overrides: Value, keys: map<string, Schema>, p: Path)
    requires Fits(settings, overrides, keys) && Supplied(overrides, keys, p)
    ensures At(Overlaid(settings, overrides, keys), p) == At(overrides, p)
    decreases |p|
  {
    assert overrides.Dict? && p[0] in overrides.items;
    assert settings.Dict?;
    OverlaidAt(settings, overrides, keys, p[0]);
    if keys[p[0]].Sub? {
      SuppliedLeafIsOverride(settings.items[p[0]], overrides.items[p[0]], keys[p[0]].keys, p[1..]);
    }
  }

  /** One path leads to the other. */
  predicate Comparable(p: Path, q: Path) {
    p <= q || q <= p
  }

  /** Everything else keeps its default: leaves not supplied, keys outside the schema, and branches
      without a supplied leaf. In particular no key appears that the schema does not have. */
  lemma {:induction false} RestIsDefault(settings: Value, overrides: Value, keys: map<string, Schema>, p: Path)
    requires Fits(settings, overrides, keys)
    requires forall q :: Supplied(overrides, keys, q) ==> !Comparable(p, q)
    ensures At(Overlaid(settings, overrides, keys), p) == At(settings, p)
    decreases overrides, |p|
  {
    if !Falsy(overrides) && settings.Dict? {
      var result := Overlaid(settings, overrides, keys);
      if p == [] {
        forall q ensures !Supplied(overrides, keys, q) {
          assert [] <= q;
        }
        NothingSupplied(settings, overrides, keys);
      } else {
        var k := p[0];
        OverlaidAt(settings, overrides, keys, k);
        if k in overrides.items && k in keys {
          if keys[k].Leaf? {
            assert At(overrides.items[k], []).Some?;
            assert [k][1..] == [];
            assert Supplied(overrides, keys, [k]) && Comparable(p, [k]);
          } else {
            forall q | Supplied(overrides.items[k], keys[k].keys, q) ensures !Comparable(p[1..], q) {
              var kq := [k] + q;
              assert kq[1..] == q;
              assert Supplied(overrides, keys, kq);
              assert p == [k] + p[1..];
              assert !Comparable(p, kq);
            }
            RestIsDefault(settings.items[k], overrides.items[k], keys[k].keys, p[1..]);
          }
        }
      }
    }
  }

  /** Overrides that supply no leaf change nothing at all. */
  lemma {:induction false} NothingSupplied(settings: Value, overrides: Value, keys: map<string, Schema>)
    requires Fits(settings, overrides, keys)
    requires forall q :: !Supplied(overrides, keys, q)
    ensures Overlaid(settings, overrides, keys) == settings
    decreases overrides
  {
    if !Falsy(overrides) && settings.Dict? {
      var r := Overlaid(settings, overrides, keys);
      forall k ensures k in r.items <==> k in settings.items
               ensures k in settings.items ==> r.items[k] == settings.items[k]
      {
        OverlaidAt(settings, overrides, keys, k);
        if k in overrides.items && k in keys {
          if keys[k].Leaf? {
            assert [k][1..] == [];
            assert Supplied(overrides, keys, [k]);
            assert false;
          } else {
            forall q ensures !Supplied(overrides.items[k], keys[k].keys, q) {
              assert ([k] + q)[1..] == q;
              assert !Supplied(overrides, keys, [k] + q);
            }
            NothingSupplied(settings.items[k], overrides.items[k], keys[k].keys);
          }
        }
      }
      assert r.items == settings.items;
    }
  }

  /** Applying the same overrides twice is applying them once. */
  lemma {:induction false} OverlayIsIdempotent(settings: Value, overrides: Value, keys: map<string, Schema>)
    requires Fits(settings, overrides, keys)
    ensures Fits(Overlaid(settings, overrides, keys), overrides, keys)
    ensures Overlaid(Overlaid(settings, overrides, keys), overrides, keys) == Overlaid(settings, overrides, keys)
    decreases overrides
  {
    if !Falsy(overrides) && settings.Dict? {
      var r := Overlaid(settings, overrides, keys);
      forall k | k in overrides.items && k in keys && keys[k].Sub?
        ensures k in r.items && Fits(r.items[k], overrides.items[k], keys[k].keys)
        ensures Overlaid(r.items[k], overrides.items[k], keys[k].keys) == r.items[k]
      {
        OverlaidAt(settings, overrides, keys, k);
        OverlayIsIdempotent(settings.items[k], overrides.items[k], keys[k].keys);
      }
      var rr := Overlaid(r, overrides, keys);
      forall k ensures k in rr.items <==> k in r.items
               ensures k in r.items ==> rr.items[k] == r.items[k]
      {
        OverlaidAt(settings, overrides, keys, k);
        OverlaidAt(r, overrides, keys, k);
      }
      assert rr.items == r.items;
    }
  }

  // ---------------------------------------------------------------- when it raises

  function SchemaAt(keys: map<string, Schema>, p: Path): Option<map<string, Schema>>
    decreases |p|
  {
    if p == [] then Some(keys)
    else if p[0] in keys && keys[p[0]].Sub? then SchemaAt(keys[p[0]].keys, p[1..])
    else None
  }

  /** At this place of the schema there is a scalar where a dictionary belongs, or a key of the schema is overridden
      that cannot be: the settings have no dictionary here, the schema is mistaken, or the key opens a branch
      that the settings do not have. */
  predicate ClashesAt(settings: Value, overrides: Value, keys: map<string, Schema>, p: Path) {
    && SchemaAt(keys, p).Some? && At(overrides, p).Some? && At(settings, p).Some?
    && var ks, o, s := SchemaAt(keys, p).value, At(overrides, p).value, At(settings, p).value;
       || o.Scalar?
       || (o.Dict? && exists k :: k in o.items && k in ks
                                  && (!s.Dict? || ks[k].Mistake? || (ks[k].Sub? && k !in s.items)))
  }

  /** It raises exactly where there is such a place. Keys that the schema does not have never matter. */
  lemma {:induction false} FitsIff(settings: Value, overrides: Value, keys: map<string, Schema>)
    ensures Fits(settings, overrides, keys) <==> forall p :: !ClashesAt(settings, overrides, keys, p)
    decreases overrides
  {
    if p :| ClashesAt(settings, overrides, keys, p) {
      ClashRaises(settings, overrides, keys, p);
    } else if !Fits(settings, overrides, keys) {
      assert !ClashesAt(settings, overrides, keys, []);
      assert overrides.Dict? && settings.Dict?;
      var k :| k in overrides.items && k in keys && keys[k].Sub? && k in settings.items
               && !Fits(settings.items[k], overrides.items[k], keys[k].keys);
      var sub := keys[k].keys;
      FitsIff(settings.items[k], overrides.items[k], sub);
      var q :| ClashesAt(settings.items[k], overrides.items[k], sub, q);
      assert ([k] + q)[1..] == q;
      assert ClashesAt(settings, overrides, keys, [k] + q);
    }
  }

  lemma {:induction false} ClashRaises(settings: Value, overrides: Value, keys: map<string, Schema>, p: Path)
    requires ClashesAt(settings, overrides, keys, p)
    ensures !Fits(settings, overrides, keys)
    decreases |p|
  {
    if p != [] {
      ClashRaises(settings.items[p[0]], overrides.items[p[0]], keys[p[0]].keys, p[1..]);
    }
  }
}
