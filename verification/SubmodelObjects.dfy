/**
 * The submodel builder on objects: constructors that set `parent` on the objects they are given and push what the
 * factory builds from them, proved against the tree functions of SubmodelTree.
 */
module SubmodelObjects {
  import opened JsStrings
  import opened SubmodelTree

  function Continued(ws: seq<Element>, r: Result<seq<Element>, Error>): Result<seq<Element>, Error> {
    match r
    case Err(e) => Err(e)
    case Ok(more) => Ok(ws + more)
  }

  lemma ContinuesNothing(r: Result<seq<Element>, Error>)
    ensures Continued([], r) == r
  {
    assert r.Ok? ==> [] + r.value == r.value;
  }

  /** What one call of `addValue` pushes, given the reference of the container. */
  function Pushed(reference: Result<Keys, Error>, v: Element): Result<Element, Error> {
    match reference
    case Err(e) => Err(e)
    case Ok(keys) => Created(v, Some(keys))
  }

  function AllPushed(reference: Result<Keys, Error>, vs: seq<Element>): Result<seq<Element>, Error> {
    if vs == [] then Ok([])
    else
      match Pushed(reference, vs[0])
      case Err(e) => Err(e)
      case Ok(w) => Continued([w], AllPushed(reference, vs[1..]))
  }

  lemma ContinuedTwice(ws: seq<Element>, w: Element, r: Result<seq<Element>, Error>)
    ensures Continued(ws, Continued([w], r)) == Continued(ws + [w], r)
  {
    assert r.Ok? ==> ws + ([w] + r.value) == ws + [w] + r.value;
  }

  /** An element object, parsed from JSON or built by the library; only `parent` changes once it is built. */
  class ElementObject {
    const modelType: Option<Kind>
    const idShort: string
    var parent: Option<Keys>
    var listed: bool
    var children: seq<ElementObject>
    var first: Option<Keys>
    var second: Option<Keys>
    var selfManaged: bool
    var asset: Option<Keys>
    ghost var repr: set<ElementObject>

    /** This object and everything below it, a tree without sharing, reads as `v`, whatever its own parent. */
    ghost predicate Shows(v: Element)
      reads this, repr
      decreases v
    {
      && this in repr
      && modelType == v.modelType && idShort == v.idShort && listed == v.listed
      && first == v.first && second == v.second && selfManaged == v.selfManaged && asset == v.asset
      && |children| == |v.children|
      && (forall i :: 0 <= i < |children| ==>
            && children[i] in repr && children[i].repr <= repr && this !in children[i].repr
            && children[i].parent == v.children[i].parent
            && children[i].Shows(v.children[i]))
      && (forall i, j :: 0 <= i < j < |children| ==> children[i].repr !! children[j].repr)
    }

    /** A data element reading as `v`, whatever its own parent. */
    ghost predicate Leaf(v: Element)
      reads this`repr, this`children, this`listed, this`first, this`second, this`selfManaged, this`asset
    {
      && repr == {this} && children == [] && v.children == []
      && modelType == v.modelType && idShort == v.idShort && listed == v.listed
      && first == v.first && second == v.second && selfManaged == v.selfManaged && asset == v.asset
    }

    constructor (modelType: Option<Kind>, idShort: string, parent: Option<Keys>)
      ensures this.modelType == modelType && this.idShort == idShort && this.parent == parent
      ensures !listed && children == [] && first.None? && second.None? && !selfManaged && asset.None?
      ensures repr == {this}
    {
      this.modelType, this.idShort, this.parent := modelType, idShort, parent;
      listed, children, first, second, selfManaged, asset := false, [], None, None, false, None;
      repr := {this};
    }

    /** `getReference`: the own key, then a fresh copy of every key of the parent. */
    method GetReference() returns (r: Result<Keys, Error>)
      requires modelType.Some?
      ensures r == ElementReference(modelType.value, idShort, parent)
    {
      var own := OwnKey(modelType.value, idShort);
      ghost var all := [own] + (if parent.Some? then parent.value else []);
      assert all[0] == own;
      if !ValidKey(own) {
        return Err(BadKey);
      }
      var keys := [own];
      if parent.Some? {
        var i := 0;
        while i < |parent.value|
          invariant 0 <= i <= |parent.value| && keys == all[..i + 1] && ValidKeys(keys)
        {
          assert all[i + 1] == parent.value[i];
          if !ValidKey(parent.value[i]) {
            return Err(BadKey);
          }
          keys := keys + [parent.value[i]];
          i := i + 1;
        }
      }
      assert keys == all;
      r := Ok(keys);
    }

    /** `addValue` and `addStatement`: point the element here, then push what the factory builds from it. */
    method AddChild(e: ElementObject, ghost v: Element, ghost ws: seq<Element>) returns (error: Option<Error>)
      requires modelType.Some? && this in repr && Grove(children, ws, repr - {this}) && e.Shows(v) && e.repr !! repr
      modifies this`children, this`repr, e.repr`parent
      ensures modelType.Some? && parent == old(parent) && this in repr
      ensures match Pushed(ElementReference(modelType.value, idShort, parent), v)
              case Err(x) => error == Some(x)
              case Ok(w) => error == None && Grove(children, ws + [w], repr - {this})
      ensures match ElementReference(modelType.value, idShort, parent)
              case Err(_) => e.parent == old(e.parent)
              case Ok(reference) => e.parent == Some(reference)
      ensures old(repr) <= repr && fresh(repr - old(repr))
      decreases v, 3
    {
      hide Created, ElementReference, Grove;
      ghost var within := repr - {this};
      var reference := GetReference();
      if reference.Err? {
        return Some(reference.error);
      }
      e.parent := Some(reference.value);
      var created := CreateSubmodelElement(e, v);
      if created.Err? {
        return Some(created.error);
      }
      ghost var w := Created(v, Some(reference.value)).value;
      GroveGrows(children, ws, within, created.value, w);
      children := children + [created.value];
      repr := repr + created.value.repr;
      assert repr - {this} == within + created.value.repr;
      error := None;
    }

    /** `setValue` and `setStatements`: add the elements one after another. */
    method SetChildren(ns: seq<ElementObject>, ghost vs: seq<Element>, ghost within: set<ElementObject>)
      returns (error: Option<Error>)
      requires modelType.Some? && repr == {this} && Grove(ns, vs, within) && this !in within
      modifies this`children, this`repr, within`parent
      ensures modelType.Some? && parent == old(parent) && this in repr && fresh(repr - {this})
      ensures match AllPushed(ElementReference(modelType.value, idShort, parent), vs)
              case Err(x) => error == Some(x)
              case Ok(ws) => error == None && Grove(children, ws, repr - {this})
      decreases vs, 0
    {
      hide Pushed, Grove, ElementReference;
      NothingYet(ns, vs, within);
      ghost var left := within;
      children := [];
      ghost var ws: seq<Element> := [];
      assert repr - {this} == {} && vs[0..] == vs;
      ghost var reference := ElementReference(modelType.value, idShort, parent);
      ContinuesNothing(AllPushed(reference, vs));
      var i := 0;
      while i < |ns|
        invariant 0 <= i <= |ns| && |ns| == |vs|
        invariant parent == old(parent) && this in repr && fresh(repr - {this})
        invariant Grove(children, ws, repr - {this})
        invariant AllPushed(reference, vs) == Continued(ws, AllPushed(reference, vs[i..]))
        invariant Grove(ns[i..], vs[i..], left) && left <= within
      {
        ghost var rest := AllPushed(reference, vs[i + 1..]);
        TakeNext(ns, vs, i, left);
        left := left - ns[i].repr;
        var failed := AddChild(ns[i], vs[i], ws);
        if failed.Some? {
          return failed;
        }
        ghost var w := Pushed(reference, vs[i]).value;
        ContinuedTwice(ws, w, rest);
        ws := ws + [w];
        i := i + 1;
      }
      assert ws + [] == ws;
      error := None;
    }

    /** `addAnnotation`: the data element itself is pushed, pointed here. */
    method AddAnnotation(e: ElementObject) returns (error: Option<Error>)
      requires modelType.Some? && e != this
      modifies this`children, this`repr, e`parent
      ensures match ElementReference(modelType.value, idShort, parent)
              case Err(x) => error == Some(x)
              case Ok(reference) =>
                && error == None && e.parent == Some(reference)
                && children == old(children) + [e] && repr == old(repr) + {e}
    {
      var reference := GetReference();
      if reference.Err? {
        return Some(reference.error);
      }
      e.parent := Some(reference.value);
      children := children + [e];
      repr := repr + {e};
      error := None;
    }

    /** `setAnnotation`. */
    method SetAnnotation(ns: seq<ElementObject>, ghost ws: seq<Element>) returns (error: Option<Error>)
      requires modelType.Some? && repr == {this} && this !in ns && Leaves(ns, ws)
      modifies this`children, this`repr, ns`parent
      ensures parent == old(parent)
      ensures if ns == [] then error == None && children == [] && repr == {this}
              else match ElementReference(modelType.value, idShort, parent)
                   case Err(x) => error == Some(x)
                   case Ok(reference) =>
                     && error == None && repr == {this} + (set x | x in ns)
                     && Grove(children, Adopt(ws, reference), set x | x in ns)
    {
      hide ElementReference, Leaves;
      children := [];
      ghost var reference := ElementReference(modelType.value, idShort, parent);
      var i := 0;
      while i < |ns|
        invariant 0 <= i <= |ns| && children == ns[..i] && parent == old(parent) && Leaves(ns, ws)
        invariant i > 0 ==> reference.Ok?
        invariant forall k :: 0 <= k < i ==> ns[k].parent == Some(reference.value)
        invariant repr == {this} + (set x | x in ns[..i])
      {
        error := AddAnnotation(ns[i]);
        if error.Some? {
          return;
        }
        assert ns[..i + 1] == ns[..i] + [ns[i]];
        i := i + 1;
      }
      assert ns[..|ns|] == ns;
      error := None;
      if ns != [] {
        AdoptedGrove(ns, ws, reference.value);
      }
    }
  }

  /** Distinct trees within `within`, reading as `vs`, own parents included. */
  ghost predicate Grove(ns: seq<ElementObject>, vs: seq<Element>, within: set<ElementObject>)
    reads within
  {
    && |ns| == |vs|
    && (forall i :: 0 <= i < |ns| ==>
          ns[i] in within && ns[i].repr <= within && ns[i].parent == vs[i].parent && ns[i].Shows(vs[i]))
    && (forall i, j :: 0 <= i < j < |ns| ==> ns[i].repr !! ns[j].repr)
  }

  lemma NothingYet(ns: seq<ElementObject>, vs: seq<Element>, within: set<ElementObject>)
    requires Grove(ns, vs, within)
    ensures Grove(ns[0..], vs[0..], within) && Grove([], [], {}) && Leaves([], []) && |ns| == |vs|
  {
    assert ns[0..] == ns && vs[0..] == vs;
  }

  lemma TakeNext(ns: seq<ElementObject>, vs: seq<Element>, i: nat, within: set<ElementObject>)
    requires |ns| == |vs| && i < |ns| && Grove(ns[i..], vs[i..], within)
    ensures ns[i].Shows(vs[i]) && ns[i].parent == vs[i].parent && ns[i].repr <= within
    ensures Grove(ns[i + 1..], vs[i + 1..], within - ns[i].repr)
    ensures vs[i..][0] == vs[i] && vs[i..][1..] == vs[i + 1..]
  {
    assert ns[i..][0] == ns[i];
    forall k | i < k < |ns|
      ensures ns[k] in ns[k].repr && ns[k].repr !! ns[i].repr && ns[k].repr <= within
      ensures ns[k].Shows(vs[k]) && ns[k].parent == vs[k].parent
    {
      assert ns[i..][k - i] == ns[k] && vs[i..][k - i] == vs[k];
    }
    forall k, l | i < k < l < |ns|
      ensures ns[k].repr !! ns[l].repr
    {
      assert ns[i..][k - i] == ns[k] && ns[i..][l - i] == ns[l];
    }
  }

  lemma GroveGrows(ns: seq<ElementObject>, ws: seq<Element>, within: set<ElementObject>, n: ElementObject, w: Element)
    requires Grove(ns, ws, within) && n.Shows(w) && n.parent == w.parent && n.repr !! within
    ensures Grove(ns + [n], ws + [w], within + n.repr)
  {
  }

  lemma {:induction false} AdoptAt(ws: seq<Element>, reference: Keys, k: nat)
    requires k < |ws|
    ensures |Adopt(ws, reference)| == |ws| && Adopt(ws, reference)[k] == ws[k].(parent := Some(reference))
  {
    if |ws| > 1 {
      AdoptAt(ws[1..], reference, if k > 0 then k - 1 else 0);
    }
  }

  /** Distinct data elements reading as `ws`, whatever their parents. */
  ghost predicate Leaves(ns: seq<ElementObject>, ws: seq<Element>)
    reads ns`repr, ns`children, ns`listed, ns`first, ns`second, ns`selfManaged, ns`asset
  {
    && |ns| == |ws|
    && (forall k :: 0 <= k < |ns| ==> ns[k].Leaf(ws[k]))
    && (forall k, l :: 0 <= k < l < |ns| ==> ns[k] != ns[l])
  }

  lemma LeavesGrow(ns: seq<ElementObject>, ws: seq<Element>, n: ElementObject, w: Element)
    requires Leaves(ns, ws) && n.Leaf(w) && n !in ns
    ensures Leaves(ns + [n], ws + [w])
  {
  }

  lemma AdoptedGrove(ns: seq<ElementObject>, ws: seq<Element>, reference: Keys)
    requires Leaves(ns, ws) && forall k :: 0 <= k < |ns| ==> ns[k].parent == Some(reference)
    ensures Grove(ns, Adopt(ws, reference), set x | x in ns)
  {
    assert |Adopt(ws, reference)| == |ws| by {
      if ws != [] {
        AdoptAt(ws, reference, 0);
      }
    }
    forall k | 0 <= k < |ns|
      ensures ns[k].Shows(Adopt(ws, reference)[k]) && Adopt(ws, reference)[k].parent == Some(reference)
    {
      AdoptAt(ws, reference, k);
    }
  }

  lemma {:induction false} AllPushedIsCreated(ns: seq<Element>, reference: Result<Keys, Error>)
    ensures reference.Ok? ==> AllPushed(reference, ns) == AllCreated(ns, reference.value)
    ensures reference.Err? && ns != [] ==> AllPushed(reference, ns) == Err(reference.error)
  {
    if ns != [] {
      AllPushedIsCreated(ns[1..], reference);
    }
  }

  lemma AllPushedIsChildren(n: Element, kind: Kind, parent: Option<Keys>)
    ensures Children(n, kind, parent)
         == AllPushed(ElementReference(kind, n.idShort, parent), if n.listed then n.children else [])
  {
    hide ElementReference;
    AllPushedIsCreated(n.children, ElementReference(kind, n.idShort, parent));
  }

  /** `SubmodelElementFactory.createSubmodelElement` with the constructor it dispatches to. */
  method CreateSubmodelElement(n: ElementObject, ghost v: Element) returns (r: Result<ElementObject, Error>)
    requires n.Shows(v)
    modifies n.repr`parent
    ensures match Created(v, old(n.parent))
            case Err(e) => r == Err(e)
            case Ok(w) => r.Ok? && r.value.Shows(w) && r.value.parent == w.parent && fresh(r.value.repr)
    ensures n.parent == old(n.parent)
    decreases v, 2
  {
    if n.modelType.None? {
      return Err(NoModelType);
    }
    var kind := n.modelType.value;
    if kind.Unsupported? {
      return Err(UnsupportedModelType(kind.name));
    }
    if !ValidParent(n.parent) {
      return Err(BadKey);
    }
    if kind == SubmodelElementCollection {
      r := NewContainer(n, v);
    } else if kind == Entity {
      r := NewEntity(n, v);
    } else if kind == RelationshipElement {
      r := NewRelationship(n, v);
    } else if kind == AnnotatedRelationshipElement {
      r := NewAnnotatedRelationship(n, v);
    } else {
      var e := new ElementObject(n.modelType, n.idShort, n.parent);
      r := Ok(e);
    }
  }

  /** The object of a container and its children. */
  method NewContainer(n: ElementObject, ghost v: Element) returns (r: Result<ElementObject, Error>)
    requires n.Shows(v) && n.modelType.Some? && ValidParent(n.parent)
    modifies n.repr`parent
    ensures match Children(v, n.modelType.value, old(n.parent))
            case Err(e) => r == Err(e)
            case Ok(ws) =>
              && r.Ok? && fresh(r.value.repr) && r.value.parent == old(n.parent)
              && r.value.Shows(Element(n.modelType, n.idShort, old(n.parent), true, ws, None, None, false, None))
    ensures n.parent == old(n.parent)
    decreases v, 0
  {
    hide Children, AllPushed, Grove;
    ShowsGrove(n, v);
    AllPushedIsChildren(v, n.modelType.value, n.parent);
    ghost var parent := n.parent;
    var e := new ElementObject(n.modelType, n.idShort, n.parent);
    e.listed := true;
    if n.listed {
      var failed := e.SetChildren(n.children, v.children, n.repr - {n});
      if failed.Some? {
        return Err(failed.value);
      }
    } else {
      NothingPushed(ElementReference(n.modelType.value, n.idShort, parent));
    }
    assert n.modelType.value == v.modelType.value;
    ghost var ws := Children(v, n.modelType.value, parent).value;
    GroveShows(e, Element(n.modelType, n.idShort, parent, true, ws, None, None, false, None));
    r := Ok(e);
  }

  method NewEntity(n: ElementObject, ghost v: Element) returns (r: Result<ElementObject, Error>)
    requires n.Shows(v) && n.modelType == Some(Entity) && ValidParent(n.parent)
    modifies n.repr`parent
    ensures match Created(v, old(n.parent))
            case Err(e) => r == Err(e)
            case Ok(w) => r.Ok? && r.value.Shows(w) && r.value.parent == w.parent && fresh(r.value.repr)
    ensures n.parent == old(n.parent)
    decreases v, 1
  {
    hide Children, Reference, ValidParent, Grove;
    ghost var parent := n.parent;
    r := NewContainer(n, v);
    if r.Err? {
      return;
    }
    var entity := r.value;
    ghost var children := Children(v, Entity, parent).value;
    ShowsGrove(entity, Element(n.modelType, n.idShort, parent, true, children, None, None, false, None));
    entity.selfManaged := n.selfManaged;
    if n.selfManaged {
      var asset := Reference(n.asset);
      if asset.Err? {
        return Err(if asset.error == BadKey then BadKey else MissingAsset);
      }
      entity.asset := Some(asset.value);
    }
    GroveShows(entity, Created(v, parent).value);
  }

  method NewRelationship(n: ElementObject, ghost v: Element) returns (r: Result<ElementObject, Error>)
    requires n.Shows(v) && n.modelType.Some? && !n.modelType.value.Unsupported? && ValidParent(n.parent)
    ensures match Related(v, Element(n.modelType, n.idShort, n.parent, false, [], None, None, false, None))
            case Err(e) => r == Err(e)
            case Ok(w) => r.Ok? && r.value.Shows(w) && r.value.parent == w.parent && fresh(r.value.repr)
                          && r.value.repr == {r.value} && r.value.idShort == w.idShort
  {
    var first := Reference(n.first);
    if first.Err? {
      return Err(first.error);
    }
    var second := Reference(n.second);
    if second.Err? {
      return Err(second.error);
    }
    var e := new ElementObject(n.modelType, n.idShort, n.parent);
    e.first, e.second := Some(first.value), Some(second.value);
    r := Ok(e);
  }

  /** `SubmodelElementFactory.createDataElement`. */
  method CreateDataElement(n: ElementObject, ghost v: Element) returns (r: Result<ElementObject, Error>)
    requires n.Shows(v) && n.parent == v.parent
    ensures match CreatedData(v)
            case Err(e) => r == Err(e)
            case Ok(w) => r.Ok? && r.value.Leaf(w) && r.value.parent == w.parent && fresh(r.value)
  {
    if n.modelType.None? {
      return Err(NoModelType);
    }
    var kind := n.modelType.value;
    if kind !in {Property, MultiLanguageProperty, Range, Blob, File, ReferenceElement} {
      return Err(UnsupportedModelType(KindName(kind)));
    }
    if !ValidParent(n.parent) {
      return Err(BadKey);
    }
    var e := new ElementObject(n.modelType, n.idShort, n.parent);
    r := Ok(e);
  }

  lemma NothingPushed(reference: Result<Keys, Error>)
    ensures AllPushed(reference, []) == Ok([]) && Grove([], [], {})
  {
  }

  lemma AdoptsNothing()
    ensures Grove([], [], {}) && forall reference :: Adopt([], reference) == []
  {
  }

  lemma ShowsGrove(n: ElementObject, v: Element)
    requires n.Shows(v)
    ensures Grove(n.children, v.children, n.repr - {n})
  {
  }

  lemma LeavesLength(ns: seq<ElementObject>, ws: seq<Element>)
    requires Leaves(ns, ws)
    ensures |ns| == |ws|
  {
  }

  lemma GroveShows(e: ElementObject, w: Element)
    requires Grove(e.children, w.children, e.repr - {e}) && e in e.repr
    requires e.modelType == w.modelType && e.idShort == w.idShort && e.listed == w.listed
    requires e.first == w.first && e.second == w.second && e.selfManaged == w.selfManaged && e.asset == w.asset
    ensures e.Shows(w)
  {
  }

  method NewAnnotatedRelationship(n: ElementObject, ghost v: Element) returns (r: Result<ElementObject, Error>)
    requires n.Shows(v) && n.modelType == Some(AnnotatedRelationshipElement) && ValidParent(n.parent)
    ensures match Created(v, n.parent)
            case Err(e) => r == Err(e)
            case Ok(w) => r.Ok? && r.value.Shows(w) && r.value.parent == w.parent && fresh(r.value.repr)
  {
    hide Grove, Leaves, Adopt, AllData, Reference, ElementReference, ValidParent;
    ShowsGrove(n, v);
    r := NewRelationship(n, v);
    if r.Err? {
      return;
    }
    var e := r.value;
    if !n.listed {
      return Err(MissingAnnotation);
    }
    e.listed := true;
    var data := AllDataElements(n.children, v.children, n.repr - {n});
    if data.Err? {
      return Err(data.error);
    }
    ghost var ws := AllData(v.children).value;
    LeavesLength(data.value, ws);
    var failed := e.SetAnnotation(data.value, ws);
    if failed.Some? {
      return Err(failed.value);
    }
    if data.value == [] {
      AdoptsNothing();
    }
    assert e.repr - {e} == set x | x in data.value;
    GroveShows(e, Created(v, n.parent).value);
  }

  method AllDataElements(ns: seq<ElementObject>, ghost vs: seq<Element>, ghost within: set<ElementObject>)
    returns (r: Result<seq<ElementObject>, Error>)
    requires Grove(ns, vs, within)
    ensures match AllData(vs)
            case Err(e) => r == Err(e)
            case Ok(ws) => r.Ok? && fresh(r.value) && Leaves(r.value, ws)
  {
    hide CreatedData, Grove, Leaves;
    NothingYet(ns, vs, within);
    ghost var left := within;
    var made: seq<ElementObject> := [];
    ghost var ws: seq<Element> := [];
    assert vs[0..] == vs;
    ContinuesNothing(AllData(vs));
    var i := 0;
    while i < |ns|
      invariant 0 <= i <= |ns| && fresh(made) && Leaves(made, ws) && Grove(ns[i..], vs[i..], left)
      invariant AllData(vs) == Continued(ws, AllData(vs[i..]))
    {
      TakeNext(ns, vs, i, left);
      left := left - ns[i].repr;
      ghost var rest := AllData(vs[i + 1..]);
      var e := CreateDataElement(ns[i], vs[i]);
      if e.Err? {
        return Err(e.error);
      }
      ghost var w := CreatedData(vs[i]).value;
      ContinuedTwice(ws, w, rest);
      LeavesGrow(made, ws, e.value, w);
      made, ws := made + [e.value], ws + [w];
      i := i + 1;
    }
    assert ws + [] == ws;
    r := Ok(made);
  }

  // ---------------------------------------------------------------- the submodel

  class SubmodelObject {
    const identification: Option<Identification>
    const idShort: string
    const parent: Option<Keys>
    var semanticId: Option<Keys>
    var submodelElements: seq<ElementObject>
    ghost var repr: set<ElementObject>

    constructor (identification: Option<Identification>, idShort: string, parent: Option<Keys>)
      ensures this.identification == identification && this.idShort == idShort && this.parent == parent
      ensures semanticId.None? && submodelElements == [] && repr == {}
    {
      this.identification, this.idShort, this.parent := identification, idShort, parent;
      semanticId, submodelElements, repr := None, [], {};
    }

    /** `getReference` of an identifiable. */
    method GetReference() returns (r: Result<Keys, Error>)
      ensures r == SubmodelReference(identification)
    {
      if identification.None? || identification.value.idType == "" || identification.value.id == "" {
        return Err(MissingIdentification);
      }
      r := Ok([SubmodelKey(identification.value)]);
    }

    /** `addSubmodelElement`. */
    method AddSubmodelElement(e: ElementObject, ghost v: Element, ghost ws: seq<Element>) returns (error: Option<Error>)
      requires Grove(submodelElements, ws, repr) && e.Shows(v) && e.repr !! repr
      modifies this`submodelElements, this`repr, e.repr`parent
      ensures match Pushed(SubmodelReference(identification), v)
              case Err(x) => error == Some(x)
              case Ok(w) => error == None && Grove(submodelElements, ws + [w], repr)
      ensures match SubmodelReference(identification)
              case Err(_) => e.parent == old(e.parent)
              case Ok(reference) => e.parent == Some(reference)
      ensures old(repr) <= repr && fresh(repr - old(repr))
    {
      hide Created, SubmodelReference, Grove;
      var reference := GetReference();
      if reference.Err? {
        return Some(reference.error);
      }
      e.parent := Some(reference.value);
      var created := CreateSubmodelElement(e, v);
      if created.Err? {
        return Some(created.error);
      }
      GroveGrows(submodelElements, ws, repr, created.value, Created(v, Some(reference.value)).value);
      submodelElements := submodelElements + [created.value];
      repr := repr + created.value.repr;
      error := None;
    }

    /** `setSubmodelElements`. */
    method SetSubmodelElements(ns: seq<ElementObject>, ghost vs: seq<Element>, ghost within: set<ElementObject>)
      returns (error: Option<Error>)
      requires repr == {} && Grove(ns, vs, within)
      modifies this`submodelElements, this`repr, within`parent
      ensures fresh(repr)
      ensures match SecondPass(identification, vs)
              case Err(x) => error == Some(x)
              case Ok(ws) => error == None && Grove(submodelElements, ws, repr)
    {
      hide Pushed, Grove, SubmodelReference;
      NothingYet(ns, vs, within);
      ghost var left := within;
      submodelElements := [];
      ghost var ws: seq<Element> := [];
      assert vs[0..] == vs;
      ghost var reference := SubmodelReference(identification);
      ContinuesNothing(AllPushed(reference, vs));
      AllPushedIsCreated(vs, reference);
      var i := 0;
      while i < |ns|
        invariant 0 <= i <= |ns| && |ns| == |vs|
        invariant fresh(repr) && Grove(submodelElements, ws, repr)
        invariant AllPushed(reference, vs) == Continued(ws, AllPushed(reference, vs[i..]))
        invariant Grove(ns[i..], vs[i..], left) && left <= within
      {
        ghost var rest := AllPushed(reference, vs[i + 1..]);
        TakeNext(ns, vs, i, left);
        left := left - ns[i].repr;
        var failed := AddSubmodelElement(ns[i], vs[i], ws);
        if failed.Some? {
          return failed;
        }
        ghost var w := Pushed(reference, vs[i]).value;
        ContinuedTwice(ws, w, rest);
        ws := ws + [w];
        i := i + 1;
      }
      assert ws + [] == ws;
      error := None;
    }
  }

  /** The first loop of `fromJSON`: build every element under the parent its JSON form carries. */
  method BuildElements(ns: seq<ElementObject>, ghost vs: seq<Element>, ghost within: set<ElementObject>)
    returns (r: Result<seq<ElementObject>, Error>, ghost made: set<ElementObject>)
    requires Grove(ns, vs, within)
    modifies within`parent
    ensures match FirstPass(vs)
            case Err(e) => r == Err(e)
            case Ok(ws) => r.Ok? && fresh(made) && Grove(r.value, ws, made)
  {
    hide Created, Grove;
    NothingYet(ns, vs, within);
    ghost var left := within;
    var elements: seq<ElementObject> := [];
    ghost var ws: seq<Element> := [];
    made := {};
    assert vs[0..] == vs;
    ContinuesNothing(FirstPass(vs));
    var i := 0;
    while i < |ns|
      invariant 0 <= i <= |ns| && |ns| == |vs|
      invariant fresh(made) && Grove(elements, ws, made)
      invariant FirstPass(vs) == Continued(ws, FirstPass(vs[i..]))
      invariant Grove(ns[i..], vs[i..], left) && left <= within
    {
      ghost var rest := FirstPass(vs[i + 1..]);
      TakeNext(ns, vs, i, left);
      left := left - ns[i].repr;
      var created := CreateSubmodelElement(ns[i], vs[i]);
      if created.Err? {
        return Err(created.error), made;
      }
      ghost var w := Created(vs[i], vs[i].parent).value;
      ContinuedTwice(ws, w, rest);
      GroveGrows(elements, ws, made, created.value, w);
      elements, ws, made := elements + [created.value], ws + [w], made + created.value.repr;
      i := i + 1;
    }
    assert ws + [] == ws;
    r := Ok(elements);
  }

  /** `Submodel.fromJSON` on a submodel whose elements are the trees `ns`. */
  method SubmodelFromJson(ns: seq<ElementObject>, identification: Option<Identification>, idShort: string,
                          parent: Option<Keys>, semanticId: Option<Keys>, ghost vs: seq<Element>,
                          ghost within: set<ElementObject>)
    returns (r: Result<SubmodelObject, Error>)
    requires Grove(ns, vs, within)
    modifies within`parent
    ensures match FromJson(Submodel(identification, idShort, parent, semanticId, vs))
            case Err(e) => r == Err(e)
            case Ok(sm) =>
              && r.Ok? && fresh(r.value) && fresh(r.value.repr)
              && r.value.identification == sm.identification && r.value.idShort == sm.idShort
              && r.value.parent == sm.parent && r.value.semanticId == sm.semanticId
              && Grove(r.value.submodelElements, sm.elements, r.value.repr)
  {
    hide Grove, FirstPass, SecondPass;
    var elements, made := BuildElements(ns, vs, within);
    if elements.Err? {
      return Err(elements.error);
    }
    if !ValidParent(parent) {
      return Err(BadKey);
    }
    var sm := new SubmodelObject(identification, idShort, parent);
    var failed := sm.SetSubmodelElements(elements.value, FirstPass(vs).value, made);
    if failed.Some? {
      return Err(failed.value);
    }
    if semanticId.Some? {
      if !ValidKeys(semanticId.value) {
        return Err(BadKey);
      }
      sm.semanticId := semanticId;
    }
    r := Ok(sm);
  }

  /** The object reached by an index path. */
  ghost function ObjectAt(ns: seq<ElementObject>, vs: seq<Element>, within: set<ElementObject>, path: seq<nat>)
    : ElementObject
    requires Grove(ns, vs, within) && IsPath(vs, path)
    reads within
    decreases |path|
  {
    var p := path[0];
    if |path| == 1 then ns[p]
    else
      ShowsGrove(ns[p], vs[p]);
      ObjectAt(ns[p].children, vs[p].children, ns[p].repr - {ns[p]}, path[1..])
  }

  lemma {:induction false} ObjectAtReads(ns: seq<ElementObject>, vs: seq<Element>, within: set<ElementObject>,
                                         path: seq<nat>)
    requires Grove(ns, vs, within) && IsPath(vs, path)
    ensures ObjectAt(ns, vs, within, path).parent == ElementAt(vs, path).parent
    ensures ObjectAt(ns, vs, within, path).Shows(ElementAt(vs, path))
    decreases |path|
  {
    if |path| > 1 {
      var p := path[0];
      ShowsGrove(ns[p], vs[p]);
      ObjectAtReads(ns[p].children, vs[p].children, ns[p].repr - {ns[p]}, path[1..]);
    }
  }

  /** Every object below a submodel object built by `fromJSON` has the path to the submodel as its parent. */
  lemma ObjectParents(sm: SubmodelObject, obj: Submodel, path: seq<nat>)
    requires FromJson(obj).Ok? && Grove(sm.submodelElements, FromJson(obj).value.elements, sm.repr)
    requires IsPath(FromJson(obj).value.elements, path)
    ensures var es := FromJson(obj).value.elements;
            && Identified(obj.identification)
            && ObjectAt(sm.submodelElements, es, sm.repr, path).parent
               == Some(InnermostFirst(ContainersAt(es, path)) + [SubmodelKey(obj.identification.value)])
  {
    ParentIsThePathToTheRoot(obj, path);
    ObjectAtReads(sm.submodelElements, FromJson(obj).value.elements, sm.repr, path);
  }

  /** And it has the attributes of the element at the same path of the JSON, as AttributesAreKept has them. */
  lemma ObjectAttributes(sm: SubmodelObject, obj: Submodel, path: seq<nat>)
    requires FromJson(obj).Ok? && Grove(sm.submodelElements, FromJson(obj).value.elements, sm.repr)
    requires IsPath(FromJson(obj).value.elements, path)
    ensures IsPath(obj.elements, path)
    ensures var n := ElementAt(obj.elements, path);
            var o := ObjectAt(sm.submodelElements, FromJson(obj).value.elements, sm.repr, path);
            && n.modelType.Some? && o.modelType == n.modelType && o.idShort == n.idShort
            && |o.children| == (if HasBelow(n) then |n.children| else 0)
            && (n.modelType.value in {RelationshipElement, AnnotatedRelationshipElement} ==>
                  n.first.Some? && n.second.Some? && o.first == n.first && o.second == n.second)
            && (n.modelType.value == Entity ==>
                  && o.selfManaged == n.selfManaged
                  && (n.selfManaged ==> n.asset.Some? && o.asset == n.asset) && (!n.selfManaged ==> o.asset == None))
  {
    hide FromJson;
    AttributesAreKept(obj, path);
    ObjectAtReads(sm.submodelElements, FromJson(obj).value.elements, sm.repr, path);
  }
}
