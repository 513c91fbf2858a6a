/** plait's component desugaring: in the types of a component's fields, every elided or `'_`
    reference lifetime becomes a fresh named lifetime `'plait_N`, and every `impl Trait` becomes
    a fresh type parameter `PN` with the same bounds. The new lifetimes go before the
    component's own generic parameters and the new type parameters after them.

    Types are a small tree: references, paths with generic arguments, `impl Trait` and slices.
    The lifetime pass runs before the `impl Trait` pass on each field, so a parameter's bounds
    already carry the fresh lifetimes. */
module Desugar {
  import opened Wrappers
  import opened Text

  /** A lifetime by its identifier, without the leading quote; `_` is the anonymous one. */
  type Lifetime = string

  const Anonymous: Lifetime := "_"

  datatype Ty =
    | Ref(lifetime: Option<Lifetime>, mutable: bool, elem: Ty)
    | Path(name: string, args: seq<GenArg>)
    | ImplTrait(bounds: seq<Bound>)
    | Slice(elem: Ty)

  datatype GenArg = LifetimeArg(lt: Lifetime) | TypeArg(ty: Ty)

  /** A bound of `impl Trait`: a trait path with generic arguments, or a lifetime such as
      `+ 'a`. */
  datatype Bound = TraitBound(name: string, args: seq<GenArg>) | LifetimeBound(lt: Lifetime)

  datatype Field = Field(ident: string, ty: Ty)

  datatype TypeParam = TypeParam(name: string, bounds: seq<Bound>)

  datatype GenericParam = LifetimeParam(lt: Lifetime) | TypeParameter(param: TypeParam) | ConstParam(name: string)

  /** The `n`-th fresh lifetime, `'plait_n`. */
  function Fresh(n: nat): Lifetime {
    "plait_" + NatToString(n)
  }

  /** The `n`-th fresh type parameter's name, `Pn`. */
  function ParamName(n: nat): string {
    "P" + NatToString(n)
  }

  // ---------------------------------------------------------------------------------------
  // What the passes look for

  /** A reference lifetime that gets a fresh name: none written, or `'_`. */
  predicate IsHole(lt: Option<Lifetime>) {
    lt.None? || lt == Some(Anonymous)
  }

  /** The number of lifetimes the lifetime pass names: elided or `'_` reference lifetimes and
      `'_` generic arguments, everywhere, `impl Trait` bounds included. A lifetime bound is
      not a generic argument and is left alone. */
  function HolesTy(t: Ty): nat
    decreases t
  {
    match t
    case Ref(lt, _, elem) => (if IsHole(lt) then 1 else 0) + HolesTy(elem)
    case Path(_, args) => HolesArgs(args)
    case ImplTrait(bounds) => HolesBounds(bounds)
    case Slice(elem) => HolesTy(elem)
  }

  function HolesArg(a: GenArg): nat
    decreases a
  {
    match a
    case LifetimeArg(l) => if l == Anonymous then 1 else 0
    case TypeArg(t) => HolesTy(t)
  }

  function HolesArgs(args: seq<GenArg>): nat
    decreases args
  {
    if args == [] then 0 else HolesArg(args[0]) + HolesArgs(args[1..])
  }

  function HolesBound(b: Bound): nat
    decreases b
  {
    match b
    case TraitBound(_, args) => HolesArgs(args)
    case LifetimeBound(_) => 0
  }

  function HolesBounds(bs: seq<Bound>): nat
    decreases bs
  {
    if bs == [] then 0 else HolesBound(bs[0]) + HolesBounds(bs[1..])
  }

  /** Every reference lifetime is written and named, and no generic argument is `'_`. */
  predicate NamedTy(t: Ty)
    decreases t
  {
    match t
    case Ref(lt, _, elem) => !IsHole(lt) && NamedTy(elem)
    case Path(_, args) => NamedArgs(args)
    case ImplTrait(bounds) => NamedBounds(bounds)
    case Slice(elem) => NamedTy(elem)
  }

  predicate NamedArg(a: GenArg)
    decreases a
  {
    match a
    case LifetimeArg(l) => l != Anonymous
    case TypeArg(t) => NamedTy(t)
  }

  predicate NamedArgs(args: seq<GenArg>)
    decreases args
  {
    args != [] ==> NamedArg(args[0]) && NamedArgs(args[1..])
  }

  predicate NamedBound(b: Bound)
    decreases b
  {
    match b
    case TraitBound(_, args) => NamedArgs(args)
    case LifetimeBound(_) => true
  }

  predicate NamedBounds(bs: seq<Bound>)
    decreases bs
  {
    bs != [] ==> NamedBound(bs[0]) && NamedBounds(bs[1..])
  }

  /** The bounds of each `impl Trait` the type pass replaces, in visiting order. The pass does
      not look inside an `impl Trait` it replaces. */
  function ImplsTy(t: Ty): seq<seq<Bound>>
    decreases t
  {
    match t
    case Ref(_, _, elem) => ImplsTy(elem)
    case Path(_, args) => ImplsArgs(args)
    case ImplTrait(bounds) => [bounds]
    case Slice(elem) => ImplsTy(elem)
  }

  function ImplsArg(a: GenArg): seq<seq<Bound>>
    decreases a
  {
    match a
    case LifetimeArg(_) => []
    case TypeArg(t) => ImplsTy(t)
  }

  function ImplsArgs(args: seq<GenArg>): seq<seq<Bound>>
    decreases args
  {
    if args == [] then [] else ImplsArg(args[0]) + ImplsArgs(args[1..])
  }

  // ---------------------------------------------------------------------------------------
  // What the passes promise, as relations between a type before and after

  /** `u` is `t` with its holes, in visiting order, named `Fresh(n)`, `Fresh(n + 1)`, and so on;
      everything else, `impl Trait` bounds and lifetime bounds included, is kept. */
  predicate LtFilledTy(t: Ty, u: Ty, n: nat)
    decreases t
  {
    match t
    case Ref(lt, m, elem) =>
      && u.Ref? && u.mutable == m
      && (if IsHole(lt) then u.lifetime == Some(Fresh(n)) && LtFilledTy(elem, u.elem, n + 1)
          else u.lifetime == lt && LtFilledTy(elem, u.elem, n))
    case Path(name, args) => u.Path? && u.name == name && LtFilledArgs(args, u.args, n)
    case ImplTrait(bounds) => u.ImplTrait? && LtFilledBounds(bounds, u.bounds, n)
    case Slice(elem) => u.Slice? && LtFilledTy(elem, u.elem, n)
  }

  predicate LtFilledArg(a: GenArg, u: GenArg, n: nat)
    decreases a
  {
    match a
    case LifetimeArg(l) => u == LifetimeArg(if l == Anonymous then Fresh(n) else l)
    case TypeArg(t) => u.TypeArg? && LtFilledTy(t, u.ty, n)
  }

  predicate LtFilledArgs(args: seq<GenArg>, us: seq<GenArg>, n: nat)
    decreases args
  {
    && |args| == |us|
    && (args != [] ==> LtFilledArg(args[0], us[0], n) && LtFilledArgs(args[1..], us[1..], n + HolesArg(args[0])))
  }

  predicate LtFilledBound(b: Bound, u: Bound, n: nat)
    decreases b
  {
    match b
    case TraitBound(name, args) => u.TraitBound? && u.name == name && LtFilledArgs(args, u.args, n)
    case LifetimeBound(_) => u == b
  }

  predicate LtFilledBounds(bs: seq<Bound>, us: seq<Bound>, n: nat)
    decreases bs
  {
    && |bs| == |us|
    && (bs != [] ==> LtFilledBound(bs[0], us[0], n) && LtFilledBounds(bs[1..], us[1..], n + HolesBound(bs[0])))
  }

  /** `u` is `t` with its `impl Trait` types, in visiting order, replaced by the paths `Pn`,
      `P(n + 1)`, and so on, and `ps` are the parameters made for them, each with the bounds of
      the `impl Trait` it replaced; everything else is kept. */
  predicate ImplFilledTy(t: Ty, u: Ty, n: nat, ps: seq<TypeParam>)
    decreases t
  {
    match t
    case Ref(lt, m, elem) => u.Ref? && u.lifetime == lt && u.mutable == m && ImplFilledTy(elem, u.elem, n, ps)
    case Path(name, args) => u.Path? && u.name == name && ImplFilledArgs(args, u.args, n, ps)
    case ImplTrait(bounds) => u == Path(ParamName(n), []) && ps == [TypeParam(ParamName(n), bounds)]
    case Slice(elem) => u.Slice? && ImplFilledTy(elem, u.elem, n, ps)
  }

  predicate ImplFilledArg(a: GenArg, u: GenArg, n: nat, ps: seq<TypeParam>)
    decreases a
  {
    match a
    case LifetimeArg(_) => u == a && ps == []
    case TypeArg(t) => u.TypeArg? && ImplFilledTy(t, u.ty, n, ps)
  }

  predicate ImplFilledArgs(args: seq<GenArg>, us: seq<GenArg>, n: nat, ps: seq<TypeParam>)
    decreases args
  {
    && |args| == |us|
    && (args == [] ==> ps == [])
    && (args != [] ==>
          var k := |ImplsArg(args[0])|;
          && k <= |ps|
          && ImplFilledArg(args[0], us[0], n, ps[..k])
          && ImplFilledArgs(args[1..], us[1..], n + k, ps[k..]))
  }

  /** Both passes at once: `u` is `t` with its holes named from `Fresh(ln)` on and its
      `impl Trait` types replaced by the parameters from `P(pn)` on, and `ps` are those
      parameters, each bounded by its `impl Trait`'s bounds with their holes named too. */
  predicate DesugaredTy(t: Ty, u: Ty, ln: nat, pn: nat, ps: seq<TypeParam>)
    decreases t
  {
    match t
    case Ref(lt, m, elem) =>
      && u.Ref? && u.mutable == m
      && (if IsHole(lt) then u.lifetime == Some(Fresh(ln)) && DesugaredTy(elem, u.elem, ln + 1, pn, ps)
          else u.lifetime == lt && DesugaredTy(elem, u.elem, ln, pn, ps))
    case Path(name, args) => u.Path? && u.name == name && DesugaredArgs(args, u.args, ln, pn, ps)
    case ImplTrait(bounds) =>
      && u == Path(ParamName(pn), [])
      && |ps| == 1 && ps[0].name == ParamName(pn) && LtFilledBounds(bounds, ps[0].bounds, ln)
    case Slice(elem) => u.Slice? && DesugaredTy(elem, u.elem, ln, pn, ps)
  }

  predicate DesugaredArg(a: GenArg, u: GenArg, ln: nat, pn: nat, ps: seq<TypeParam>)
    decreases a
  {
    match a
    case LifetimeArg(l) => u == LifetimeArg(if l == Anonymous then Fresh(ln) else l) && ps == []
    case TypeArg(t) => u.TypeArg? && DesugaredTy(t, u.ty, ln, pn, ps)
  }

  predicate DesugaredArgs(args: seq<GenArg>, us: seq<GenArg>, ln: nat, pn: nat, ps: seq<TypeParam>)
    decreases args
  {
    && |args| == |us|
    && (args == [] ==> ps == [])
    && (args != [] ==>
          var k := |ImplsArg(args[0])|;
          && k <= |ps|
          && DesugaredArg(args[0], us[0], ln, pn, ps[..k])
          && DesugaredArgs(args[1..], us[1..], ln + HolesArg(args[0]), pn + k, ps[k..]))
  }

  /** Each field keeps its name and its type is desugared, the lifetime and parameter numbers
      running on from one field to the next. */
  predicate DesugaredFields(fs: seq<Field>, gs: seq<Field>, ln: nat, pn: nat, ps: seq<TypeParam>) {
    && |fs| == |gs|
    && (fs == [] ==> ps == [])
    && (fs != [] ==>
          var k := |ImplsTy(fs[0].ty)|;
          && k <= |ps| && gs[0].ident == fs[0].ident
          && DesugaredTy(fs[0].ty, gs[0].ty, ln, pn, ps[..k])
          && DesugaredFields(fs[1..], gs[1..], ln + HolesTy(fs[0].ty), pn + k, ps[k..]))
  }

  // ---------------------------------------------------------------------------------------
  // The lifetime pass (`CollectLifetimes`)

  /** `next_lifetime`: the fresh name is numbered by how many were made before. */
  function NextLifetime(elided: seq<Lifetime>): (r: (Lifetime, seq<Lifetime>)) {
    var lt := Fresh(|elided|);
    (lt, elided + [lt])
  }

  /** A lifetime is replaced when it is `'_`. */
  function VisitLifetime(lt: Lifetime, elided: seq<Lifetime>): (r: (Lifetime, seq<Lifetime>)) {
    if lt == Anonymous then NextLifetime(elided) else (lt, elided)
  }

  /** A reference's own lifetime is named first, then its element is visited, so outer
      references get the smaller numbers. */
  function LifetimesTy(t: Ty, elided: seq<Lifetime>): (r: (Ty, seq<Lifetime>))
    ensures |r.1| == |elided| + HolesTy(t) && r.1[..|elided|] == elided
    ensures forall i :: |elided| <= i < |r.1| ==> r.1[i] == Fresh(i)
    ensures NamedTy(r.0)
    ensures |ImplsTy(r.0)| == |ImplsTy(t)|
    ensures HolesTy(t) == 0 ==> r.0 == t
    ensures LtFilledTy(t, r.0, |elided|)
    decreases t
  {
    match t
    case Ref(lt, m, elem) =>
      var (l, e1) := if lt.None? then NextLifetime(elided) else VisitLifetime(lt.value, elided);
      var (elem', e2) := LifetimesTy(elem, e1);
      assert e2[..|elided|] == elided by {
        assert e2[..|e1|][..|elided|] == e2[..|elided|];
      }
      (Ref(Some(l), m, elem'), e2)
    case Path(name, args) =>
      var (args', e) := LifetimesArgs(args, elided);
      (Path(name, args'), e)
    case ImplTrait(bounds) =>
      var (bounds', e) := LifetimesBounds(bounds, elided);
      (ImplTrait(bounds'), e)
    case Slice(elem) =>
      var (elem', e) := LifetimesTy(elem, elided);
      (Slice(elem'), e)
  }

  /** `visit_generic_argument_mut`: a `'_` argument is renamed; a type argument is visited. */
  function LifetimesArg(a: GenArg, elided: seq<Lifetime>): (r: (GenArg, seq<Lifetime>))
    ensures |r.1| == |elided| + HolesArg(a) && r.1[..|elided|] == elided
    ensures forall i :: |elided| <= i < |r.1| ==> r.1[i] == Fresh(i)
    ensures NamedArg(r.0)
    ensures |ImplsArg(r.0)| == |ImplsArg(a)|
    ensures HolesArg(a) == 0 ==> r.0 == a
    ensures LtFilledArg(a, r.0, |elided|)
    decreases a
  {
    match a
    case LifetimeArg(l) =>
      var (l', e) := VisitLifetime(l, elided);
      (LifetimeArg(l'), e)
    case TypeArg(t) =>
      var (t', e) := LifetimesTy(t, elided);
      (TypeArg(t'), e)
  }

  function LifetimesArgs(args: seq<GenArg>, elided: seq<Lifetime>): (r: (seq<GenArg>, seq<Lifetime>))
    ensures |r.1| == |elided| + HolesArgs(args) && r.1[..|elided|] == elided
    ensures forall i :: |elided| <= i < |r.1| ==> r.1[i] == Fresh(i)
    ensures NamedArgs(r.0)
    ensures |ImplsArgs(r.0)| == |ImplsArgs(args)|
    ensures HolesArgs(args) == 0 ==> r.0 == args
    ensures LtFilledArgs(args, r.0, |elided|)
    decreases args
  {
    if args == [] then ([], elided)
    else
      var (a, e1) := LifetimesArg(args[0], elided);
      var (rest, e2) := LifetimesArgs(args[1..], e1);
      FreshRunsOn(elided, e1, e2);
      LtArgsCons(args, a, rest, |elided|);
      ([a] + rest, e2)
  }

  /** The lifetime pass over one argument and then the rest is the pass over all of them. */
  lemma LtArgsCons(args: seq<GenArg>, a: GenArg, rest: seq<GenArg>, n: nat)
    requires args != []
    requires NamedArg(a) && NamedArgs(rest)
    requires |ImplsArg(a)| == |ImplsArg(args[0])| && |ImplsArgs(rest)| == |ImplsArgs(args[1..])|
    requires HolesArg(args[0]) == 0 ==> a == args[0]
    requires HolesArgs(args[1..]) == 0 ==> rest == args[1..]
    requires LtFilledArg(args[0], a, n) && LtFilledArgs(args[1..], rest, n + HolesArg(args[0]))
    ensures NamedArgs([a] + rest)
    ensures |ImplsArgs([a] + rest)| == |ImplsArgs(args)|
    ensures HolesArgs(args) == 0 ==> [a] + rest == args
    ensures LtFilledArgs(args, [a] + rest, n)
  {
    var us := [a] + rest;
    assert us[0] == a && us[1..] == rest;
    assert HolesArgs(args) == 0 ==> us == args by {
      assert args == [args[0]] + args[1..];
    }
  }

  function LifetimesBound(b: Bound, elided: seq<Lifetime>): (r: (Bound, seq<Lifetime>))
    ensures |r.1| == |elided| + HolesBound(b) && r.1[..|elided|] == elided
    ensures forall i :: |elided| <= i < |r.1| ==> r.1[i] == Fresh(i)
    ensures NamedBound(r.0)
    ensures HolesBound(b) == 0 ==> r.0 == b
    ensures LtFilledBound(b, r.0, |elided|)
    decreases b
  {
    match b
    case TraitBound(name, args) =>
      var (args', e) := LifetimesArgs(args, elided);
      (TraitBound(name, args'), e)
    case LifetimeBound(l) => (LifetimeBound(l), elided)
  }

  function LifetimesBounds(bs: seq<Bound>, elided: seq<Lifetime>): (r: (seq<Bound>, seq<Lifetime>))
    ensures |r.1| == |elided| + HolesBounds(bs) && r.1[..|elided|] == elided
    ensures forall i :: |elided| <= i < |r.1| ==> r.1[i] == Fresh(i)
    ensures NamedBounds(r.0)
    ensures HolesBounds(bs) == 0 ==> r.0 == bs
    ensures LtFilledBounds(bs, r.0, |elided|)
    decreases bs
  {
    if bs == [] then ([], elided)
    else
      var (b, e1) := LifetimesBound(bs[0], elided);
      var (rest, e2) := LifetimesBounds(bs[1..], e1);
      assert ([b] + rest)[0] == b && ([b] + rest)[1..] == rest;
      assert e2[..|elided|] == elided by {
        assert e2[..|e1|][..|elided|] == e2[..|elided|];
      }
      assert HolesBounds(bs) == 0 ==> [b] + rest == bs by {
        assert bs == [bs[0]] + bs[1..];
      }
      ([b] + rest, e2)
  }

  // ---------------------------------------------------------------------------------------
  // The `impl Trait` pass (`CollectImplTraits`)
  /** The parameters a run made after `params` split where an inner run stopped. */
  lemma SplitParams(params: seq<TypeParam>, p1: seq<TypeParam>, p2: seq<TypeParam>)
    requires |params| <= |p1| <= |p2| && p2[..|p1|] == p1
    ensures p2[|params|..][..|p1| - |params|] == p1[|params|..]
    ensures p2[|params|..][|p1| - |params|..] == p2[|p1|..]
  {
  }

  /** Parameters made by two runs in a row are numbered on, with the bounds of the first run's
      `impl Trait` types followed by the second's. */
  lemma ParamsRunOn(params: seq<TypeParam>, p1: seq<TypeParam>, p2: seq<TypeParam>, xs: seq<seq<Bound>>, ys: seq<seq<Bound>>)
    requires |p1| == |params| + |xs| && |p2| == |p1| + |ys|
    requires p1[..|params|] == params && p2[..|p1|] == p1
    requires forall i :: |params| <= i < |p1| ==> p1[i] == TypeParam(ParamName(i), xs[i - |params|])
    requires forall i :: |p1| <= i < |p2| ==> p2[i] == TypeParam(ParamName(i), ys[i - |p1|])
    ensures p2[..|params|] == params
    ensures forall i :: |params| <= i < |p2| ==> p2[i] == TypeParam(ParamName(i), (xs + ys)[i - |params|])
  {
    assert p2[..|p1|][..|params|] == p2[..|params|];
    forall i | |params| <= i < |p2|
      ensures p2[i] == TypeParam(ParamName(i), (xs + ys)[i - |params|])
    {
      if i < |p1| {
        assert p2[i] == p2[..|p1|][i];
      }
    }
  }


  /** Each `impl Trait` becomes the path `PN`, `N` counting the parameters made before, and the
      parameter keeps the bounds as they are; nothing inside the replaced type is visited. */
  function ImplTy(t: Ty, params: seq<TypeParam>): (r: (Ty, seq<TypeParam>))
    ensures |r.1| == |params| + |ImplsTy(t)| && r.1[..|params|] == params
    ensures forall i :: |params| <= i < |r.1| ==> r.1[i] == TypeParam(ParamName(i), ImplsTy(t)[i - |params|])
    ensures ImplsTy(r.0) == []
    ensures NamedTy(t) ==> NamedTy(r.0)
    ensures ImplsTy(t) == [] ==> r.0 == t
    ensures ImplFilledTy(t, r.0, |params|, r.1[|params|..])
    decreases t
  {
    match t
    case Ref(lt, m, elem) =>
      var (elem', p) := ImplTy(elem, params);
      (Ref(lt, m, elem'), p)
    case Path(name, args) =>
      var (args', p) := ImplArgs(args, params);
      (Path(name, args'), p)
    case ImplTrait(bounds) =>
      var name := ParamName(|params|);
      assert (params + [TypeParam(name, bounds)])[|params|..] == [TypeParam(name, bounds)];
      (Path(name, []), params + [TypeParam(name, bounds)])
    case Slice(elem) =>
      var (elem', p) := ImplTy(elem, params);
      (Slice(elem'), p)
  }

  function ImplArg(a: GenArg, params: seq<TypeParam>): (r: (GenArg, seq<TypeParam>))
    ensures |r.1| == |params| + |ImplsArg(a)| && r.1[..|params|] == params
    ensures forall i :: |params| <= i < |r.1| ==> r.1[i] == TypeParam(ParamName(i), ImplsArg(a)[i - |params|])
    ensures ImplsArg(r.0) == []
    ensures NamedArg(a) ==> NamedArg(r.0)
    ensures ImplsArg(a) == [] ==> r.0 == a
    ensures ImplFilledArg(a, r.0, |params|, r.1[|params|..])
    decreases a
  {
    match a
    case LifetimeArg(l) => (LifetimeArg(l), params)
    case TypeArg(t) =>
      var (t', p) := ImplTy(t, params);
      (TypeArg(t'), p)
  }

  function ImplArgs(args: seq<GenArg>, params: seq<TypeParam>): (r: (seq<GenArg>, seq<TypeParam>))
    ensures |r.1| == |params| + |ImplsArgs(args)| && r.1[..|params|] == params
    ensures forall i :: |params| <= i < |r.1| ==> r.1[i] == TypeParam(ParamName(i), ImplsArgs(args)[i - |params|])
    ensures ImplsArgs(r.0) == []
    ensures NamedArgs(args) ==> NamedArgs(r.0)
    ensures ImplsArgs(args) == [] ==> r.0 == args
    ensures ImplFilledArgs(args, r.0, |params|, r.1[|params|..])
    decreases args
  {
    if args == [] then ([], params)
    else
      var (a, p1) := ImplArg(args[0], params);
      var (rest, p2) := ImplArgs(args[1..], p1);
      ParamsRunOn(params, p1, p2, ImplsArg(args[0]), ImplsArgs(args[1..]));
      SplitParams(params, p1, p2);
      ImplArgsCons(args, a, rest, |params|, p1[|params|..], p2[|p1|..]);
      ([a] + rest, p2)
  }

  /** The `impl Trait` pass over one argument and then the rest is the pass over all of them. */
  lemma ImplArgsCons(args: seq<GenArg>, a: GenArg, rest: seq<GenArg>, n: nat, head: seq<TypeParam>, tail: seq<TypeParam>)
    requires args != [] && |head| == |ImplsArg(args[0])|
    requires ImplsArg(a) == [] && ImplsArgs(rest) == []
    requires NamedArg(args[0]) ==> NamedArg(a)
    requires NamedArgs(args[1..]) ==> NamedArgs(rest)
    requires ImplsArg(args[0]) == [] ==> a == args[0]
    requires ImplsArgs(args[1..]) == [] ==> rest == args[1..]
    requires ImplFilledArg(args[0], a, n, head) && ImplFilledArgs(args[1..], rest, n + |head|, tail)
    ensures ImplsArgs([a] + rest) == []
    ensures NamedArgs(args) ==> NamedArgs([a] + rest)
    ensures ImplsArgs(args) == [] ==> [a] + rest == args
    ensures ImplFilledArgs(args, [a] + rest, n, head + tail)
  {
    var us, ps := [a] + rest, head + tail;
    assert us[0] == a && us[1..] == rest;
    assert ps[..|head|] == head && ps[|head|..] == tail;
    assert ImplsArgs(args) == [] ==> us == args by {
      assert args == [args[0]] + args[1..];
    }
  }

  // ---------------------------------------------------------------------------------------
  // The two passes compose

  /** Naming lifetimes moves no `impl Trait`. */
  lemma {:induction false} LtFilledKeepsImplsTy(t: Ty, u: Ty, n: nat)
    requires LtFilledTy(t, u, n)
    ensures |ImplsTy(u)| == |ImplsTy(t)|
    decreases t
  {
    match t
    case Ref(lt, m, elem) =>
      LtFilledKeepsImplsTy(elem, u.elem, if IsHole(lt) then n + 1 else n);
    case Path(_, args) => LtFilledKeepsImplsArgs(args, u.args, n);
    case ImplTrait(_) =>
    case Slice(elem) => LtFilledKeepsImplsTy(elem, u.elem, n);
  }

  lemma {:induction false} LtFilledKeepsImplsArg(a: GenArg, u: GenArg, n: nat)
    requires LtFilledArg(a, u, n)
    ensures |ImplsArg(u)| == |ImplsArg(a)|
    decreases a
  {
    match a
    case LifetimeArg(_) =>
    case TypeArg(t) => LtFilledKeepsImplsTy(t, u.ty, n);
  }

  lemma {:induction false} LtFilledKeepsImplsArgs(args: seq<GenArg>, us: seq<GenArg>, n: nat)
    requires LtFilledArgs(args, us, n)
    ensures |ImplsArgs(us)| == |ImplsArgs(args)|
    decreases args
  {
    if args != [] {
      LtFilledKeepsImplsArg(args[0], us[0], n);
      LtFilledKeepsImplsArgs(args[1..], us[1..], n + HolesArg(args[0]));
    }
  }

  /** The lifetime pass followed by the `impl Trait` pass desugars a type. */
  lemma {:induction false} ComposeTy(t: Ty, mid: Ty, u: Ty, ln: nat, pn: nat, ps: seq<TypeParam>)
    requires LtFilledTy(t, mid, ln) && ImplFilledTy(mid, u, pn, ps)
    ensures DesugaredTy(t, u, ln, pn, ps)
    decreases t
  {
    match t
    case Ref(lt, m, elem) =>
      ComposeTy(elem, mid.elem, u.elem, if IsHole(lt) then ln + 1 else ln, pn, ps);
    case Path(_, args) => ComposeArgs(args, mid.args, u.args, ln, pn, ps);
    case ImplTrait(_) =>
    case Slice(elem) => ComposeTy(elem, mid.elem, u.elem, ln, pn, ps);
  }

  lemma {:induction false} ComposeArg(a: GenArg, mid: GenArg, u: GenArg, ln: nat, pn: nat, ps: seq<TypeParam>)
    requires LtFilledArg(a, mid, ln) && ImplFilledArg(mid, u, pn, ps)
    ensures DesugaredArg(a, u, ln, pn, ps)
    decreases a
  {
    match a
    case LifetimeArg(_) =>
    case TypeArg(t) => ComposeTy(t, mid.ty, u.ty, ln, pn, ps);
  }

  lemma {:induction false} ComposeArgs(args: seq<GenArg>, mids: seq<GenArg>, us: seq<GenArg>, ln: nat, pn: nat, ps: seq<TypeParam>)
    requires LtFilledArgs(args, mids, ln) && ImplFilledArgs(mids, us, pn, ps)
    ensures DesugaredArgs(args, us, ln, pn, ps)
    decreases args
  {
    if args != [] {
      var k := |ImplsArg(mids[0])|;
      LtFilledKeepsImplsArg(args[0], mids[0], ln);
      ComposeArg(args[0], mids[0], us[0], ln, pn, ps[..k]);
      ComposeArgs(args[1..], mids[1..], us[1..], ln + HolesArg(args[0]), pn + k, ps[k..]);
    }
  }

  // ---------------------------------------------------------------------------------------
  // `desugar_fields`

  function HolesFields(fields: seq<Field>): nat {
    if fields == [] then 0 else HolesTy(fields[0].ty) + HolesFields(fields[1..])
  }

  function ImplCount(fields: seq<Field>): nat {
    if fields == [] then 0 else |ImplsTy(fields[0].ty)| + ImplCount(fields[1..])
  }

  /** The field is as it was declared, apart from its type. */
  predicate SameIdents(a: seq<Field>, b: seq<Field>) {
    |a| == |b| && forall i :: 0 <= i < |a| ==> a[i].ident == b[i].ident
  }

  /** Fresh lifetimes made by two passes in a row are numbered on from one to the next. */
  lemma FreshRunsOn(elided: seq<Lifetime>, e1: seq<Lifetime>, e2: seq<Lifetime>)
    requires |elided| <= |e1| <= |e2| && e1[..|elided|] == elided && e2[..|e1|] == e1
    requires forall i :: |elided| <= i < |e1| ==> e1[i] == Fresh(i)
    requires forall i :: |e1| <= i < |e2| ==> e2[i] == Fresh(i)
    ensures e2[..|elided|] == elided && forall i :: |elided| <= i < |e2| ==> e2[i] == Fresh(i)
  {
    assert e2[..|e1|][..|elided|] == e2[..|elided|];
    forall i | |elided| <= i < |e1|
      ensures e2[i] == Fresh(i)
    {
      assert e2[i] == e2[..|e1|][i];
    }
  }

  /** The same for the parameters' names. */
  lemma NamesRunOn(params: seq<TypeParam>, p1: seq<TypeParam>, p2: seq<TypeParam>)
    requires |params| <= |p1| <= |p2| && p1[..|params|] == params && p2[..|p1|] == p1
    requires forall i :: |params| <= i < |p1| ==> p1[i].name == ParamName(i)
    requires forall i :: |p1| <= i < |p2| ==> p2[i].name == ParamName(i)
    ensures p2[..|params|] == params && forall i :: |params| <= i < |p2| ==> p2[i].name == ParamName(i)
  {
    assert p2[..|p1|][..|params|] == p2[..|params|];
    forall i | |params| <= i < |p1|
      ensures p2[i].name == ParamName(i)
    {
      assert p2[i] == p2[..|p1|][i];
    }
  }

  /** Both passes over one field's type, the lifetime pass first. */
  function DesugarField(f: Field, elided: seq<Lifetime>, params: seq<TypeParam>): (r: (Field, seq<Lifetime>, seq<TypeParam>))
    ensures r.0.ident == f.ident && NamedTy(r.0.ty) && ImplsTy(r.0.ty) == []
    ensures |r.1| == |elided| + HolesTy(f.ty) && r.1[..|elided|] == elided
    ensures forall i :: |elided| <= i < |r.1| ==> r.1[i] == Fresh(i)
    ensures |r.2| == |params| + |ImplsTy(f.ty)| && r.2[..|params|] == params
    ensures forall i :: |params| <= i < |r.2| ==> r.2[i].name == ParamName(i)
    ensures DesugaredTy(f.ty, r.0.ty, |elided|, |params|, r.2[|params|..])
    ensures HolesTy(f.ty) == 0 && ImplsTy(f.ty) == [] ==> r.0 == f
  {
    var (t1, e1) := LifetimesTy(f.ty, elided);
    var (t2, p1) := ImplTy(t1, params);
    ComposeTy(f.ty, t1, t2, |elided|, |params|, p1[|params|..]);
    (Field(f.ident, t2), e1, p1)
  }

  /** Both passes over each field in turn. */
  function Walk(fields: seq<Field>, elided: seq<Lifetime>, params: seq<TypeParam>): (r: (seq<Field>, seq<Lifetime>, seq<TypeParam>))
    ensures SameIdents(fields, r.0)
    ensures forall i :: 0 <= i < |r.0| ==> NamedTy(r.0[i].ty) && ImplsTy(r.0[i].ty) == []
    ensures |r.1| == |elided| + HolesFields(fields) && r.1[..|elided|] == elided
    ensures forall i :: |elided| <= i < |r.1| ==> r.1[i] == Fresh(i)
    ensures |r.2| == |params| + ImplCount(fields) && r.2[..|params|] == params
    ensures forall i :: |params| <= i < |r.2| ==> r.2[i].name == ParamName(i)
    ensures HolesFields(fields) == 0 && ImplCount(fields) == 0 ==> r.0 == fields
  {
    if fields == [] then ([], elided, params)
    else
      var (g, e1, p1) := DesugarField(fields[0], elided, params);
      var (rest, e2, p2) := Walk(fields[1..], e1, p1);
      FreshRunsOn(elided, e1, e2);
      NamesRunOn(params, p1, p2);
      assert HolesFields(fields) == 0 && ImplCount(fields) == 0 ==> [g] + rest == fields by {
        assert fields == [fields[0]] + fields[1..];
      }
      ([g] + rest, e2, p2)
  }

  /** Each field's type comes out of the walk desugared, with the numbers running on from the
      lifetimes and parameters made before it. */
  lemma {:induction false} WalkDesugars(fields: seq<Field>, elided: seq<Lifetime>, params: seq<TypeParam>)
    ensures var r := Walk(fields, elided, params);
      DesugaredFields(fields, r.0, |elided|, |params|, r.2[|params|..])
    decreases fields
  {
    if fields != [] {
      var d := DesugarField(fields[0], elided, params);
      WalkDesugars(fields[1..], d.1, d.2);
      WalkStep(fields, elided, params);
    }
  }

  /** The walk desugars a field and then the fields after it. */
  lemma WalkStep(fields: seq<Field>, elided: seq<Lifetime>, params: seq<TypeParam>)
    requires fields != []
    requires var d := DesugarField(fields[0], elided, params);
      var w := Walk(fields[1..], d.1, d.2);
      DesugaredFields(fields[1..], w.0, |d.1|, |d.2|, w.2[|d.2|..])
    ensures var r := Walk(fields, elided, params);
      DesugaredFields(fields, r.0, |elided|, |params|, r.2[|params|..])
  {
    var d := DesugarField(fields[0], elided, params);
    var w := Walk(fields[1..], d.1, d.2);
    var r := Walk(fields, elided, params);
    var p1, p2 := d.2, w.2;
    var head, tail := p1[|params|..], p2[|p1|..];
    WalkParts(fields, elided, params);
    FieldsCons(fields, d.0, w.0, |elided|, |params|, head, |d.1|, |p1|, tail, r.0, r.2[|params|..]);
  }

  /** The walk's fields and parameters are the first field's followed by the rest's. */
  lemma WalkParts(fields: seq<Field>, elided: seq<Lifetime>, params: seq<TypeParam>)
    requires fields != []
    ensures var d := DesugarField(fields[0], elided, params);
      var w := Walk(fields[1..], d.1, d.2);
      var r := Walk(fields, elided, params);
      r.0 == [d.0] + w.0 && r.2[|params|..] == d.2[|params|..] + w.2[|d.2|..]
  {
    var d := DesugarField(fields[0], elided, params);
    var w := Walk(fields[1..], d.1, d.2);
    WalkUnfold(fields, elided, params);
    SplitParams(params, d.2, w.2);
  }

  /** One step of the walk. */
  lemma WalkUnfold(fields: seq<Field>, elided: seq<Lifetime>, params: seq<TypeParam>)
    requires fields != []
    ensures var d := DesugarField(fields[0], elided, params);
      var w := Walk(fields[1..], d.1, d.2);
      Walk(fields, elided, params) == ([d.0] + w.0, w.1, w.2)
  {
  }

  /** One desugared field in front of desugared fields, the numbering running on. */
  lemma FieldsCons(fields: seq<Field>, g: Field, rest: seq<Field>, ln: nat, pn: nat, head: seq<TypeParam>, ln': nat, pn': nat, tail: seq<TypeParam>, gs: seq<Field>, ps: seq<TypeParam>)
    requires fields != [] && |head| == |ImplsTy(fields[0].ty)| && g.ident == fields[0].ident
    requires ln' == ln + HolesTy(fields[0].ty) && pn' == pn + |head|
    requires DesugaredTy(fields[0].ty, g.ty, ln, pn, head)
    requires DesugaredFields(fields[1..], rest, ln', pn', tail)
    requires gs == [g] + rest && ps == head + tail
    ensures DesugaredFields(fields, gs, ln, pn, ps)
  {
    assert gs[0] == g && gs[1..] == rest;
    assert ps[..|head|] == head && ps[|head|..] == tail;
  }

  function LifetimeParams(lts: seq<Lifetime>): (r: seq<GenericParam>)
    ensures |r| == |lts| && forall i :: 0 <= i < |lts| ==> r[i] == LifetimeParam(lts[i])
  {
    if lts == [] then [] else [LifetimeParam(lts[0])] + LifetimeParams(lts[1..])
  }

  function TypeParams(ps: seq<TypeParam>): (r: seq<GenericParam>)
    ensures |r| == |ps| && forall i :: 0 <= i < |ps| ==> r[i] == TypeParameter(ps[i])
  {
    if ps == [] then [] else [TypeParameter(ps[0])] + TypeParams(ps[1..])
  }

  /** The generics after desugaring: `l` fresh lifetimes, then `generics` unchanged, then `k` fresh
      type parameters numbered from zero. */
  predicate GenericsLaidOut(g: seq<GenericParam>, l: nat, generics: seq<GenericParam>, k: nat) {
    && |g| == l + |generics| + k
    && (forall i :: 0 <= i < l ==> g[i] == LifetimeParam(Fresh(i)))
    && g[l..l + |generics|] == generics
    && (forall j :: 0 <= j < k ==> g[l + |generics| + j].TypeParameter? && g[l + |generics| + j].param.name == ParamName(j))
  }

  /** `desugar_fields`: the rewritten fields, and the generics with the fresh lifetimes first,
      the component's own parameters unchanged in the middle, and the fresh type parameters
      last. */
  function DesugarFields(fields: seq<Field>, generics: seq<GenericParam>): (r: (seq<Field>, seq<GenericParam>))
    ensures SameIdents(fields, r.0)
    ensures forall i :: 0 <= i < |r.0| ==> NamedTy(r.0[i].ty) && ImplsTy(r.0[i].ty) == []
    ensures GenericsLaidOut(r.1, HolesFields(fields), generics, ImplCount(fields))
    ensures |r.1| >= HolesFields(fields) + |generics| &&
      exists ps :: r.1[HolesFields(fields) + |generics|..] == TypeParams(ps) && DesugaredFields(fields, r.0, 0, 0, ps)
  {
    var (fs, elided, params) := Walk(fields, [], []);
    var g := LifetimeParams(elided) + generics + TypeParams(params);
    GenericsLayout(elided, generics, params);
    WalkDesugarsFromStart(fields, fs, params);
    (fs, g)
  }

  /** Fresh lifetimes and fresh type parameters around the component's own generics. */
  lemma GenericsLayout(elided: seq<Lifetime>, generics: seq<GenericParam>, params: seq<TypeParam>)
    requires forall i :: 0 <= i < |elided| ==> elided[i] == Fresh(i)
    requires forall i :: 0 <= i < |params| ==> params[i].name == ParamName(i)
    ensures var g := LifetimeParams(elided) + generics + TypeParams(params);
      GenericsLaidOut(g, |elided|, generics, |params|) && g[|elided| + |generics|..] == TypeParams(params)
  {
    ThreeParts(LifetimeParams(elided), generics, TypeParams(params));
  }

  /** The walk from no lifetimes and no parameters desugars the fields. */
  lemma WalkDesugarsFromStart(fields: seq<Field>, fs: seq<Field>, ps: seq<TypeParam>)
    requires fs == Walk(fields, [], []).0 && ps == Walk(fields, [], []).2
    ensures DesugaredFields(fields, fs, 0, 0, ps)
  {
    WalkDesugars(fields, [], []);
    assert ps[0..] == ps;
  }

  /** Where each part of three sits in their concatenation. */
  lemma ThreeParts<T>(xs: seq<T>, ys: seq<T>, zs: seq<T>)
    ensures var g := xs + ys + zs;
      && |g| == |xs| + |ys| + |zs|
      && (forall i :: 0 <= i < |xs| ==> g[i] == xs[i])
      && g[|xs|..|xs| + |ys|] == ys
      && g[|xs| + |ys|..] == zs
      && (forall j :: 0 <= j < |zs| ==> g[|xs| + |ys| + j] == zs[j])
  {
  }

  // ---------------------------------------------------------------------------------------
  // Lemmas

  /** Different numbers after the same prefix give different names. */
  lemma NumberedDistinct(prefix: string, i: nat, j: nat)
    requires i != j
    ensures prefix + NatToString(i) != prefix + NatToString(j)
  {
    if prefix + NatToString(i) == prefix + NatToString(j) {
      assert (prefix + NatToString(i))[|prefix|..] == NatToString(i);
      assert (prefix + NatToString(j))[|prefix|..] == NatToString(j);
      NatToStringInjective(i, j);
    }
  }

  lemma FreshDistinct(i: nat, j: nat)
    requires i != j
    ensures Fresh(i) != Fresh(j)
    ensures ParamName(i) != ParamName(j)
  {
    NumberedDistinct("plait_", i, j);
    NumberedDistinct("P", i, j);
  }

  /** The generic parameters added by desugaring never repeat a name. */
  lemma NewParamsDistinct(fields: seq<Field>, generics: seq<GenericParam>)
    ensures var r := DesugarFields(fields, generics);
      var l := HolesFields(fields);
      forall i, j :: 0 <= i < j < l ==> r.1[i] != r.1[j]
  {
    var r := DesugarFields(fields, generics);
    var l := HolesFields(fields);
    forall i, j | 0 <= i < j < l
      ensures r.1[i] != r.1[j]
    {
      FreshDistinct(i, j);
    }
  }

  /** Fields that need no desugaring come back unchanged, and so do the generics. */
  lemma NothingToDesugar(fields: seq<Field>, generics: seq<GenericParam>)
    requires HolesFields(fields) == 0 && ImplCount(fields) == 0
    ensures DesugarFields(fields, generics) == (fields, generics)
  {
    var (fs, elided, params) := Walk(fields, [], []);
    assert elided == [] && params == [];
    assert LifetimeParams([]) + generics + TypeParams([]) == generics;
  }

  /** `&&str` gets two lifetimes, the outer reference the first. */
  lemma NestedReferences(inner: string)
    ensures var t := Ref(None, false, Ref(None, false, Path(inner, [])));
      LifetimesTy(t, []) == (Ref(Some(Fresh(0)), false, Ref(Some(Fresh(1)), false, Path(inner, []))), [Fresh(0), Fresh(1)])
  {
    var t := Ref(None, false, Ref(None, false, Path(inner, [])));
    var two := [Fresh(0), Fresh(1)];
    assert LifetimesArgs([], two) == ([], two);
    assert LifetimesTy(Path(inner, []), two) == (Path(inner, []), two);
    assert [Fresh(0)] + [Fresh(1)] == two;
    assert NextLifetime([Fresh(0)]) == (Fresh(1), two);
    assert LifetimesTy(Ref(None, false, Path(inner, [])), [Fresh(0)]) == (Ref(Some(Fresh(1)), false, Path(inner, [])), two);
    var none: seq<Lifetime> := [];
    assert none + [Fresh(0)] == [Fresh(0)];
    assert NextLifetime(none) == (Fresh(0), [Fresh(0)]);
  }

  /** A named lifetime stays, and no lifetime is added for it. */
  lemma NamedLifetimeStays(name: Lifetime, elem: Ty, elided: seq<Lifetime>)
    requires name != Anonymous && HolesTy(elem) == 0
    ensures LifetimesTy(Ref(Some(name), false, elem), elided) == (Ref(Some(name), false, elem), elided)
  {
    var r := LifetimesTy(elem, elided);
    assert r.1 == r.1[..|elided|];
  }
}
