/**
 * The submodel builder of the AAS object library: `Submodel.fromJSON` builds every nested element twice, handing each
 * container's reference down as the parent of its children.
 *
 * Elements are values here. One type stands for a built element and for the object parsed from JSON that it is built
 * from; what `toJSON` writes of a built element is a separate function, because it does not write everything.
 */
module SubmodelTree {
  import opened JsStrings

  datatype Key = Key(idType: string, typ: string, value: string, local: bool)

  type Keys = seq<Key>

  datatype Kind =
    | Property | MultiLanguageProperty | Range | Blob | File | ReferenceElement
    | SubmodelElementCollection | Entity | RelationshipElement | AnnotatedRelationshipElement
    | Operation | Capability | BasicEvent
    | Unsupported(name: string)

  function KindName(kind: Kind): string {
    match kind
    case Property => "Property"
    case MultiLanguageProperty => "MultiLanguageProperty"
    case Range => "Range"
    case Blob => "Blob"
    case File => "File"
    case ReferenceElement => "ReferenceElement"
    case SubmodelElementCollection => "SubmodelElementCollection"
    case Entity => "Entity"
    case RelationshipElement => "RelationshipElement"
    case AnnotatedRelationshipElement => "AnnotatedRelationshipElement"
    case Operation => "Operation"
    case Capability => "Capability"
    case BasicEvent => "BasicEvent"
    case Unsupported(name) => name
  }

  /**
   * A submodel element. `children` is the value of a collection, the statements of an entity or the annotation of a
   * relationship, `listed` telling whether the attribute is present.
   */
  datatype Element = Element(
    modelType: Option<Kind>, idShort: string, parent: Option<Keys>, listed: bool, children: seq<Element>,
    first: Option<Keys>, second: Option<Keys>, selfManaged: bool, asset: Option<Keys>)

  datatype Identification = Identification(idType: string, id: string)

  datatype Submodel = Submodel(
    identification: Option<Identification>, idShort: string, parent: Option<Keys>, semanticId: Option<Keys>,
    elements: seq<Element>)

  datatype Error =
    | NoModelType | UnsupportedModelType(name: string) | BadKey | MissingReference | MissingAnnotation
    | MissingAsset | MissingIdentification

  // ---------------------------------------------------------------- keys and references

  predicate ValidKey(key: Key) {
    key.idType != "" && key.typ != "" && key.value != ""
  }

  predicate ValidKeys(keys: Keys) {
    forall p :: 0 <= p < |keys| ==> ValidKey(keys[p])
  }

  predicate ValidParent(parent: Option<Keys>) {
    parent.Some? ==> ValidKeys(parent.value)
  }

  /** `new Reference(obj)` on an attribute that may be missing. */
  function Reference(keys: Option<Keys>): Result<Keys, Error> {
    match keys
    case None => Err(MissingReference)
    case Some(k) => if ValidKeys(k) then Ok(k) else Err(BadKey)
  }

  function OwnKey(kind: Kind, idShort: string): Key {
    Key("IdShort", KindName(kind), idShort, true)
  }

  /** `getReference` of an element: its own key, then the keys of its parent. */
  function ElementReference(kind: Kind, idShort: string, parent: Option<Keys>): Result<Keys, Error> {
    Reference(Some([OwnKey(kind, idShort)] + (if parent.Some? then parent.value else [])))
  }

  function SubmodelKey(id: Identification): Key {
    Key(id.idType, "Submodel", id.id, true)
  }

  /** `getReference` of a submodel: a single key. */
  function SubmodelReference(identification: Option<Identification>): Result<Keys, Error> {
    match identification
    case None => Err(MissingIdentification)
    case Some(id) => if id.idType == "" || id.id == "" then Err(MissingIdentification) else Ok([SubmodelKey(id)])
  }

  // ---------------------------------------------------------------- building

  predicate IsData(kind: Kind) {
    kind in {Property, MultiLanguageProperty, Range, Blob, File, ReferenceElement}
  }

  function Related(n: Element, plain: Element): Result<Element, Error> {
    match Reference(n.first)
    case Err(e) => Err(e)
    case Ok(first) =>
      match Reference(n.second)
      case Err(e) => Err(e)
      case Ok(second) => Ok(plain.(first := Some(first), second := Some(second)))
  }

  /** `createDataElement`: only the six data kinds, under whatever parent the element carries. */
  function CreatedData(n: Element): Result<Element, Error> {
    if n.modelType.None? then Err(NoModelType)
    else if !IsData(n.modelType.value) then Err(UnsupportedModelType(KindName(n.modelType.value)))
    else if !ValidParent(n.parent) then Err(BadKey)
    else Ok(Element(n.modelType, n.idShort, n.parent, false, [], None, None, false, None))
  }

  function AllData(ns: seq<Element>): Result<seq<Element>, Error> {
    if ns == [] then Ok([])
    else
      match CreatedData(ns[0])
      case Err(e) => Err(e)
      case Ok(first) =>
        match AllData(ns[1..])
        case Err(e) => Err(e)
        case Ok(rest) => Ok([first] + rest)
  }

  function Adopt(es: seq<Element>, reference: Keys): seq<Element> {
    if es == [] then [] else [es[0].(parent := Some(reference))] + Adopt(es[1..], reference)
  }

  /** `createSubmodelElement` on `n` after its parent attribute was set to `parent`. */
  function Created(n: Element, parent: Option<Keys>): Result<Element, Error>
    decreases n, 1
  {
    if n.modelType.None? then Err(NoModelType)
    else
      var kind := n.modelType.value;
      if kind.Unsupported? then Err(UnsupportedModelType(kind.name))
      else if !ValidParent(parent) then Err(BadKey)
      else
        var plain := Element(Some(kind), n.idShort, parent, false, [], None, None, false, None);
        match kind
        case SubmodelElementCollection =>
          (match Children(n, kind, parent)
           case Err(e) => Err(e)
           case Ok(children) => Ok(plain.(listed := true, children := children)))
        case Entity =>
          (match Children(n, kind, parent)
           case Err(e) => Err(e)
           case Ok(children) =>
             var entity := plain.(listed := true, children := children, selfManaged := n.selfManaged);
             if !n.selfManaged then Ok(entity)
             else
               match Reference(n.asset)
               case Err(BadKey) => Err(BadKey)
               case Err(_) => Err(MissingAsset)
               case Ok(asset) => Ok(entity.(asset := Some(asset))))
        case RelationshipElement =>
          (match Related(n, plain)
           case Err(e) => Err(e)
           case Ok(related) => Ok(related))
        case AnnotatedRelationshipElement =>
          (match Related(n, plain)
           case Err(e) => Err(e)
           case Ok(related) =>
             if !n.listed then Err(MissingAnnotation)
             else
               match AllData(n.children)
               case Err(e) => Err(e)
               case Ok(data) =>
                 if data == [] then Ok(related.(listed := true))
                 else
                   match ElementReference(kind, n.idShort, parent)
                   case Err(e) => Err(e)
                   case Ok(reference) => Ok(related.(listed := true, children := Adopt(data, reference))))
        case _ => Ok(plain)
  }

  /** The children of a collection or entity, each built with the container's reference as its parent. */
  function Children(n: Element, kind: Kind, parent: Option<Keys>): Result<seq<Element>, Error>
    decreases n, 0
  {
    if !n.listed || n.children == [] then Ok([])
    else
      match ElementReference(kind, n.idShort, parent)
      case Err(e) => Err(e)
      case Ok(reference) => AllCreated(n.children, reference)
  }

  function AllCreated(ns: seq<Element>, reference: Keys): Result<seq<Element>, Error>
    decreases ns, 0
  {
    if ns == [] then Ok([])
    else
      match Created(ns[0], Some(reference))
      case Err(e) => Err(e)
      case Ok(first) =>
        match AllCreated(ns[1..], reference)
        case Err(e) => Err(e)
        case Ok(rest) => Ok([first] + rest)
  }

  /** The first pass of `fromJSON`: every element under the parent its JSON form carries. */
  function FirstPass(ns: seq<Element>): Result<seq<Element>, Error> {
    if ns == [] then Ok([])
    else
      match Created(ns[0], ns[0].parent)
      case Err(e) => Err(e)
      case Ok(first) =>
        match FirstPass(ns[1..])
        case Err(e) => Err(e)
        case Ok(rest) => Ok([first] + rest)
  }

  /** `setSubmodelElements`: every element under the submodel's reference. */
  function SecondPass(identification: Option<Identification>, elements: seq<Element>): Result<seq<Element>, Error> {
    if elements == [] then Ok([])
    else
      match SubmodelReference(identification)
      case Err(e) => Err(e)
      case Ok(reference) => AllCreated(elements, reference)
  }

  /** `Submodel.fromJSON`: build the elements, then build them again under the submodel's reference. */
  function FromJson(obj: Submodel): Result<Submodel, Error> {
    match FirstPass(obj.elements)
    case Err(e) => Err(e)
    case Ok(elements) =>
      if !ValidParent(obj.parent) then Err(BadKey)
      else
        match SecondPass(obj.identification, elements)
        case Err(e) => Err(e)
        case Ok(built) => if ValidParent(obj.semanticId) then Ok(obj.(elements := built)) else Err(BadKey)
  }

  // ---------------------------------------------------------------- what the tree means

  /** Kind and idShort of every element, in order, without any references. */
  datatype Tree = Tree(kind: Kind, idShort: string, children: seq<Tree>)

  predicate IsContainer(kind: Kind) {
    kind in {SubmodelElementCollection, Entity, AnnotatedRelationshipElement}
  }

  function TreeOf(n: Element): Tree
    requires n.modelType.Some?
    decreases n, 1
  {
    Tree(n.modelType.value, n.idShort,
         if IsContainer(n.modelType.value) && n.listed then TreesOf(n.children) else [])
  }

  function TreesOf(ns: seq<Element>): seq<Tree>
    decreases ns, 0
  {
    if ns == [] then []
    else (if ns[0].modelType.Some? then [TreeOf(ns[0])] else []) + TreesOf(ns[1..])
  }

  /** The element and everything below it has as parent the keys of its containers, innermost first, down to `path`. */
  predicate Placed(e: Element, path: Keys)
    decreases e, 1
  {
    e.parent == Some(path) && e.modelType.Some?
    && AllPlaced(e.children, [OwnKey(e.modelType.value, e.idShort)] + path)
  }

  predicate AllPlaced(es: seq<Element>, path: Keys)
    decreases es, 0
  {
    es == [] || (Placed(es[0], path) && AllPlaced(es[1..], path))
  }

  predicate SoundData(n: Element) {
    n.modelType.Some? && IsData(n.modelType.value) && ValidParent(n.parent)
  }

  /** What building demands of an element, apart from its own parent attribute. */
  predicate Sound(n: Element)
    decreases n, 1
  {
    && n.modelType.Some? && !n.modelType.value.Unsupported?
    && match n.modelType.value
       case SubmodelElementCollection => SoundChildren(n)
       case Entity => SoundChildren(n) && (n.selfManaged ==> Reference(n.asset).Ok?)
       case RelationshipElement => Reference(n.first).Ok? && Reference(n.second).Ok?
       case AnnotatedRelationshipElement =>
         && Reference(n.first).Ok? && Reference(n.second).Ok? && n.listed
         && (n.children != [] ==> n.idShort != "")
         && forall p :: 0 <= p < |n.children| ==> SoundData(n.children[p])
       case _ => true
  }

  predicate SoundChildren(n: Element)
    decreases n, 0
  {
    n.listed ==> (n.children != [] ==> n.idShort != "") && AllSound(n.children)
  }

  predicate AllSound(ns: seq<Element>)
    decreases ns, 0
  {
    ns == [] || (Sound(ns[0]) && AllSound(ns[1..]))
  }

  // ---------------------------------------------------------------- lemmas

  lemma ReferenceOfElement(kind: Kind, idShort: string, parent: Option<Keys>)
    requires ValidParent(parent) && !kind.Unsupported?
    ensures ElementReference(kind, idShort, parent)
         == if idShort == "" then Err(BadKey)
            else Ok([OwnKey(kind, idShort)] + (if parent.Some? then parent.value else []))
  {
    var keys := [OwnKey(kind, idShort)] + (if parent.Some? then parent.value else []);
    assert keys[0] == OwnKey(kind, idShort);
    assert parent.Some? ==> forall p :: 0 < p < |keys| ==> keys[p] == parent.value[p - 1];
  }

  lemma {:induction false} AllDataOk(ns: seq<Element>)
    ensures AllData(ns).Ok? <==> forall p :: 0 <= p < |ns| ==> SoundData(ns[p])
    ensures AllData(ns).Ok? ==> |AllData(ns).value| == |ns| && TreesOf(AllData(ns).value) == TreesOf(ns)
    ensures AllData(ns).Ok? ==>
              forall p :: 0 <= p < |ns| ==> SoundData(AllData(ns).value[p]) && AllData(ns).value[p].children == []
  {
    if ns != [] {
      AllDataOk(ns[1..]);
      assert forall p :: 0 < p < |ns| ==> ns[p] == ns[1..][p - 1];
      if CreatedData(ns[0]).Ok? {
        assert TreeOf(CreatedData(ns[0]).value) == TreeOf(ns[0]);
      }
    }
  }

  lemma {:induction false} AdoptPlaces(es: seq<Element>, reference: Keys)
    requires forall p :: 0 <= p < |es| ==> es[p].modelType.Some? && es[p].children == []
    ensures AllPlaced(Adopt(es, reference), reference) && TreesOf(Adopt(es, reference)) == TreesOf(es)
  {
    if es != [] {
      AdoptPlaces(es[1..], reference);
    }
  }

  predicate BuiltAs(e: Element, n: Element, parent: Option<Keys>) {
    && n.modelType.Some? && e.modelType == n.modelType && e.parent == parent
    && TreeOf(e) == TreeOf(n)
    && (parent.Some? ==> Placed(e, parent.value))
  }

  lemma PlainMeans(n: Element, parent: Option<Keys>)
    requires n.modelType.Some? && !n.modelType.value.Unsupported? && !IsContainer(n.modelType.value)
    ensures Created(n, parent).Ok? <==> Sound(n) && ValidParent(parent)
    ensures Created(n, parent).Ok? ==> BuiltAs(Created(n, parent).value, n, parent)
  {
    hide Reference, ValidParent;
    if Created(n, parent).Ok? {
      var e := Created(n, parent).value;
      assert e.children == [] && TreeOf(e) == TreeOf(n);
      assert parent.Some? ==> Placed(e, parent.value);
    }
  }

  lemma NothingPlaced()
    ensures TreesOf([]) == [] && forall path :: AllPlaced([], path)
  {
  }

  lemma AnnotatedMeans(n: Element, parent: Option<Keys>)
    requires n.modelType == Some(AnnotatedRelationshipElement) && ValidParent(parent)
    ensures Created(n, parent).Ok? <==> Sound(n) && ValidParent(parent)
    ensures Created(n, parent).Ok? ==> BuiltAs(Created(n, parent).value, n, parent)
  {
    hide AllData, Adopt, Reference, ElementReference;
    NothingPlaced();
    AllDataOk(n.children);
    var data := AllData(n.children);
    ReferenceOfElement(AnnotatedRelationshipElement, n.idShort, parent);
    var reference := ElementReference(AnnotatedRelationshipElement, n.idShort, parent);
    if Created(n, parent).Ok? {
      var e := Created(n, parent).value;
      if data.value != [] {
        AdoptPlaces(data.value, reference.value);
        assert e.children == Adopt(data.value, reference.value);
      }
      assert TreesOf(e.children) == TreesOf(n.children);
      assert TreeOf(e) == TreeOf(n);
      assert parent.Some? ==> Placed(e, parent.value);
    }
  }

  /** Building succeeds exactly on sound elements, keeps the shape, and places everything under the given parent. */
  lemma {:induction false} CreatedMeans(n: Element, parent: Option<Keys>)
    ensures Created(n, parent).Ok? <==> Sound(n) && ValidParent(parent)
    ensures Created(n, parent).Ok? ==> BuiltAs(Created(n, parent).value, n, parent)
    decreases n, 1
  {
    hide Children, SoundChildren, AllData, Adopt, Reference, ElementReference, ValidParent;
    if n.modelType.Some? && !n.modelType.value.Unsupported? && ValidParent(parent) {
      NothingPlaced();
      var kind := n.modelType.value;
      if kind == AnnotatedRelationshipElement {
        AnnotatedMeans(n, parent);
      } else if IsContainer(kind) {
        ChildrenMean(n, parent);
      } else {
        PlainMeans(n, parent);
      }
    }
  }

  lemma {:induction false} ChildrenMean(n: Element, parent: Option<Keys>)
    requires n.modelType.Some? && !n.modelType.value.Unsupported? && ValidParent(parent)
    ensures var kind := n.modelType.value;
            var r := Children(n, kind, parent);
            && (r.Ok? <==> SoundChildren(n))
            && (r.Ok? ==> TreesOf(r.value) == (if n.listed then TreesOf(n.children) else []))
            && (r.Ok? && parent.Some? ==> AllPlaced(r.value, [OwnKey(kind, n.idShort)] + parent.value))
    decreases n, 0
  {
    var kind := n.modelType.value;
    ReferenceOfElement(kind, n.idShort, parent);
    if n.listed && n.children != [] && n.idShort != "" {
      AllCreatedMeans(n.children, ElementReference(kind, n.idShort, parent).value);
    }
  }

  lemma {:induction false} AllCreatedMeans(ns: seq<Element>, reference: Keys)
    requires ValidKeys(reference)
    ensures AllCreated(ns, reference).Ok? <==> AllSound(ns)
    ensures AllCreated(ns, reference).Ok? ==>
              var es := AllCreated(ns, reference).value;
              |es| == |ns| && TreesOf(es) == TreesOf(ns) && AllPlaced(es, reference)
    decreases ns, 0
  {
    if ns != [] {
      CreatedMeans(ns[0], Some(reference));
      AllCreatedMeans(ns[1..], reference);
    }
  }

  // ---------------------------------------------------------------- building twice is building once

  lemma {:induction false} DataIsRebuilt(ns: seq<Element>, reference: Keys)
    requires AllData(ns).Ok? && ValidKeys(reference)
    ensures AllData(Adopt(AllData(ns).value, reference)) == Ok(Adopt(AllData(ns).value, reference))
  {
    if ns != [] {
      DataIsRebuilt(ns[1..], reference);
      var data := AllData(ns).value;
      assert data[1..] == AllData(ns[1..]).value;
      var adopted := Adopt(data, reference);
      assert adopted[1..] == Adopt(data[1..], reference);
      assert adopted[0] == data[0].(parent := Some(reference)) && CreatedData(adopted[0]) == Ok(adopted[0]);
    }
  }

  lemma {:induction false} AdoptAgain(es: seq<Element>, reference: Keys, reference': Keys)
    ensures Adopt(Adopt(es, reference), reference') == Adopt(es, reference')
    ensures |Adopt(es, reference)| == |es|
  {
    if es != [] {
      AdoptAgain(es[1..], reference, reference');
    }
  }

  lemma NoData()
    ensures AllData([]) == Ok([])
  {
  }

  lemma AnnotationRebuilt(n: Element, p: Option<Keys>, q: Option<Keys>)
    requires Created(n, p).Ok? && ValidParent(q) && n.modelType == Some(AnnotatedRelationshipElement)
    ensures Created(Created(n, p).value, q) == Created(n, q)
  {
    hide AllData, Adopt, ElementReference;
    var kind := AnnotatedRelationshipElement;
    ReferenceOfElement(kind, n.idShort, p);
    ReferenceOfElement(kind, n.idShort, q);
    var data := AllData(n.children).value;
    if data == [] {
      NoData();
    } else {
      var reference := ElementReference(kind, n.idShort, p).value;
      DataIsRebuilt(n.children, reference);
      AdoptAgain(data, reference, ElementReference(kind, n.idShort, q).value);
    }
  }

  /** Building a built element under another parent gives what building the original there gives. */
  lemma {:induction false} Rebuilt(n: Element, p: Option<Keys>, q: Option<Keys>)
    requires Created(n, p).Ok? && ValidParent(q)
    ensures Created(Created(n, p).value, q) == Created(n, q)
    decreases n, 1
  {
    hide Children, AllData, Adopt, ElementReference;
    match n.modelType.value
    case SubmodelElementCollection => ChildrenRebuilt(n, Created(n, p).value, p, q);
    case Entity => ChildrenRebuilt(n, Created(n, p).value, p, q);
    case AnnotatedRelationshipElement => AnnotationRebuilt(n, p, q);
    case _ =>
  }

  lemma {:induction false} ChildrenRebuilt(n: Element, e: Element, p: Option<Keys>, q: Option<Keys>)
    requires n.modelType.Some? && !n.modelType.value.Unsupported? && ValidParent(p) && ValidParent(q)
    requires Children(n, n.modelType.value, p).Ok?
    requires e.listed && e.idShort == n.idShort && e.children == Children(n, n.modelType.value, p).value
    ensures Children(e, n.modelType.value, q) == Children(n, n.modelType.value, q)
    decreases n, 0
  {
    var kind := n.modelType.value;
    ReferenceOfElement(kind, n.idShort, p);
    ReferenceOfElement(kind, n.idShort, q);
    if n.listed && n.children != [] {
      var reference := ElementReference(kind, n.idShort, p).value;
      AllCreatedMeans(n.children, reference);
      AllRebuilt(n.children, reference, ElementReference(kind, n.idShort, q).value);
    }
  }

  lemma {:induction false} AllRebuilt(ns: seq<Element>, reference: Keys, reference': Keys)
    requires AllCreated(ns, reference).Ok? && ValidKeys(reference')
    ensures AllCreated(AllCreated(ns, reference).value, reference') == AllCreated(ns, reference')
    decreases ns, 0
  {
    if ns != [] {
      Rebuilt(ns[0], Some(reference), Some(reference'));
      AllRebuilt(ns[1..], reference, reference');
      var es := AllCreated(ns, reference).value;
      assert es[0] == Created(ns[0], Some(reference)).value && es[1..] == AllCreated(ns[1..], reference).value;
    }
  }

  predicate OwnParentsValid(ns: seq<Element>) {
    ns == [] || (ValidParent(ns[0].parent) && OwnParentsValid(ns[1..]))
  }

  /** The first pass leaves no trace but its errors. */
  lemma {:induction false} FirstPassMeans(ns: seq<Element>, reference: Keys)
    requires ValidKeys(reference)
    ensures FirstPass(ns).Ok? <==> AllSound(ns) && OwnParentsValid(ns)
    ensures FirstPass(ns).Ok? ==>
              |FirstPass(ns).value| == |ns| && AllCreated(FirstPass(ns).value, reference) == AllCreated(ns, reference)
  {
    if ns != [] {
      CreatedMeans(ns[0], ns[0].parent);
      FirstPassMeans(ns[1..], reference);
      if FirstPass(ns).Ok? {
        Rebuilt(ns[0], ns[0].parent, Some(reference));
        var es := FirstPass(ns).value;
        assert es[0] == Created(ns[0], ns[0].parent).value && es[1..] == FirstPass(ns[1..]).value;
      }
    }
  }

  // ---------------------------------------------------------------- theorems

  predicate Identified(identification: Option<Identification>) {
    identification.Some? && identification.value.idType != "" && identification.value.id != ""
  }

  /**
   * `fromJSON` succeeds exactly when every element is sound, the references given in the JSON are valid, and a submodel
   * with elements is identified.
   */
  lemma FromJsonSucceedsIff(obj: Submodel)
    ensures FromJson(obj).Ok? <==>
              && AllSound(obj.elements) && OwnParentsValid(obj.elements)
              && ValidParent(obj.parent) && ValidParent(obj.semanticId)
              && (obj.elements != [] ==> Identified(obj.identification))
  {
    FirstPassMeans(obj.elements, []);
    if Identified(obj.identification) && FirstPass(obj.elements).Ok? {
      var reference := [SubmodelKey(obj.identification.value)];
      FirstPassMeans(obj.elements, reference);
      AllCreatedMeans(obj.elements, reference);
    }
  }

  /**
   * After `fromJSON` every element at every depth has as parent its containers, innermost first, down to the
   * submodel's own key; kinds, idShorts, order and nesting are those of the JSON.
   */
  lemma FromJsonPlacesEverything(obj: Submodel)
    requires FromJson(obj).Ok?
    ensures var sm := FromJson(obj).value;
            && sm == obj.(elements := sm.elements) && |sm.elements| == |obj.elements|
            && TreesOf(sm.elements) == TreesOf(obj.elements)
            && (sm.elements != [] ==>
                  Identified(obj.identification) && AllPlaced(sm.elements, [SubmodelKey(obj.identification.value)]))
  {
    FromJsonSucceedsIff(obj);
    FirstPassMeans(obj.elements, []);
    if obj.elements != [] {
      var reference := [SubmodelKey(obj.identification.value)];
      FirstPassMeans(obj.elements, reference);
      AllCreatedMeans(obj.elements, reference);
    }
  }

  /** The containers passed on the way down an index path, outermost first. */
  predicate IsPath(es: seq<Element>, path: seq<nat>) {
    path != [] && path[0] < |es| && (|path| > 1 ==> IsPath(es[path[0]].children, path[1..]))
  }

  function ElementAt(es: seq<Element>, path: seq<nat>): Element
    requires IsPath(es, path)
  {
    if |path| == 1 then es[path[0]] else ElementAt(es[path[0]].children, path[1..])
  }

  function ContainersAt(es: seq<Element>, path: seq<nat>): seq<Element>
    requires IsPath(es, path)
  {
    if |path| == 1 then [] else [es[path[0]]] + ContainersAt(es[path[0]].children, path[1..])
  }

  /** The keys of `containers` from the last to the first. */
  function InnermostFirst(containers: seq<Element>): Keys {
    if containers == [] then []
    else
      var c := containers[0];
      InnermostFirst(containers[1..]) + (if c.modelType.Some? then [OwnKey(c.modelType.value, c.idShort)] else [])
  }

  lemma {:induction false} NthPlaced(es: seq<Element>, base: Keys, p: nat)
    requires AllPlaced(es, base) && p < |es|
    ensures Placed(es[p], base)
  {
    if p > 0 {
      NthPlaced(es[1..], base, p - 1);
    }
  }

  lemma {:induction false} PlacedAt(es: seq<Element>, base: Keys, path: seq<nat>)
    requires AllPlaced(es, base) && IsPath(es, path)
    ensures ElementAt(es, path).parent == Some(InnermostFirst(ContainersAt(es, path)) + base)
    decreases |path|
  {
    NthPlaced(es, base, path[0]);
    var e := es[path[0]];
    if |path| > 1 {
      var key := OwnKey(e.modelType.value, e.idShort);
      PlacedAt(e.children, [key] + base, path[1..]);
      var inner := ContainersAt(e.children, path[1..]);
      assert ContainersAt(es, path)[1..] == inner;
      assert InnermostFirst(inner) + [key] + base == InnermostFirst(inner) + ([key] + base);
    } else {
      assert InnermostFirst([]) + base == base;
    }
  }

  /** The parent of the element at any index path: its containers from the innermost out, then the submodel. */
  lemma ParentIsThePathToTheRoot(obj: Submodel, path: seq<nat>)
    requires FromJson(obj).Ok? && IsPath(FromJson(obj).value.elements, path)
    ensures var es := FromJson(obj).value.elements;
            && Identified(obj.identification)
            && ElementAt(es, path).parent
               == Some(InnermostFirst(ContainersAt(es, path)) + [SubmodelKey(obj.identification.value)])
  {
    FromJsonPlacesEverything(obj);
    PlacedAt(FromJson(obj).value.elements, [SubmodelKey(obj.identification.value)], path);
  }

  lemma {:induction false} FirstPassOfBuilt(ns: seq<Element>, reference: Keys)
    requires ValidKeys(reference) && AllCreated(ns, reference).Ok?
    ensures FirstPass(AllCreated(ns, reference).value) == AllCreated(ns, reference)
  {
    if ns != [] {
      var es := AllCreated(ns, reference).value;
      CreatedMeans(ns[0], Some(reference));
      Rebuilt(ns[0], Some(reference), Some(reference));
      FirstPassOfBuilt(ns[1..], reference);
      assert es[0] == Created(ns[0], Some(reference)).value && es[1..] == AllCreated(ns[1..], reference).value;
    }
  }

  /** `fromJSON` applied to a built submodel object reproduces it. */
  lemma FromJsonIsStable(obj: Submodel)
    requires FromJson(obj).Ok?
    ensures FromJson(FromJson(obj).value) == FromJson(obj)
  {
    FromJsonSucceedsIff(obj);
    FirstPassMeans(obj.elements, []);
    if obj.elements != [] {
      var reference := [SubmodelKey(obj.identification.value)];
      FirstPassMeans(obj.elements, reference);
      AllCreatedMeans(obj.elements, reference);
      FirstPassOfBuilt(obj.elements, reference);
      AllRebuilt(obj.elements, reference, reference);
    }
  }

  // ---------------------------------------------------------------- serialisation

  /**
   * What `toJSON` writes of a built element and of everything below it: an annotated relationship writes its annotation
   * but not its two references.
   */
  function ToJson(e: Element): Element
    decreases e, 1
  {
    if e.modelType.None? || !IsContainer(e.modelType.value) || !e.listed then e
    else
      var written := e.(children := AllToJson(e.children));
      if e.modelType.value == AnnotatedRelationshipElement then written.(first := None, second := None) else written
  }

  function AllToJson(es: seq<Element>): (r: seq<Element>)
    ensures |r| == |es|
    decreases es, 0
  {
    if es == [] then [] else [ToJson(es[0])] + AllToJson(es[1..])
  }

  function SubmodelToJson(sm: Submodel): Submodel {
    sm.(elements := AllToJson(sm.elements))
  }

  /** An annotated relationship at this place or at any depth below it. */
  predicate HasAnnotated(t: Tree)
    decreases t, 1
  {
    t.kind == AnnotatedRelationshipElement || AnyAnnotated(t.children)
  }

  predicate AnyAnnotated(ts: seq<Tree>)
    decreases ts, 0
  {
    ts != [] && (HasAnnotated(ts[0]) || AnyAnnotated(ts[1..]))
  }

  lemma NothingBelow(t: Tree)
    requires t.kind != AnnotatedRelationshipElement && t.children == []
    ensures !HasAnnotated(t)
  {
  }

  lemma ChildrenOf(n: Element, kind: Kind, parent: Option<Keys>)
    requires n.listed && n.children != [] && ElementReference(kind, n.idShort, parent).Ok?
    ensures Children(n, kind, parent) == AllCreated(n.children, ElementReference(kind, n.idShort, parent).value)
  {
  }

  lemma ContainerFails(n: Element, parent: Option<Keys>, error: Error)
    requires n.modelType in {Some(SubmodelElementCollection), Some(Entity)} && ValidParent(parent)
    requires Children(n, n.modelType.value, parent) == Err(error)
    ensures Created(n, parent) == Err(error)
  {
  }

  lemma WrittenAnnotated(e: Element, parent: Option<Keys>)
    requires Sound(e) && ValidParent(parent) && e.modelType == Some(AnnotatedRelationshipElement)
    ensures HasAnnotated(TreeOf(e)) && Created(ToJson(e), parent) == Err(MissingReference)
  {
  }

  /** What is written can be built again exactly when nothing was lost; else a reference is missing. */
  lemma {:induction false} WrittenIsBuiltIff(e: Element, parent: Option<Keys>)
    requires Sound(e) && ValidParent(parent)
    ensures ToJson(e).parent == e.parent && ToJson(e).modelType == e.modelType
    ensures !HasAnnotated(TreeOf(e)) ==> ToJson(e) == e
    ensures HasAnnotated(TreeOf(e)) ==> Created(ToJson(e), parent) == Err(MissingReference)
    decreases e, 1
  {
    hide Created, Children;
    var kind := e.modelType.value;
    if kind == AnnotatedRelationshipElement {
      WrittenAnnotated(e, parent);
    } else if IsContainer(kind) && e.listed {
      ReferenceOfElement(kind, e.idShort, parent);
      assert TreeOf(e).children == TreesOf(e.children);
      NothingPlaced();
      if e.children != [] {
        var reference := ElementReference(kind, e.idShort, parent).value;
        AllWrittenAreBuiltIff(e.children, reference);
        var w := ToJson(e);
        assert w.children == AllToJson(e.children) && w.idShort == e.idShort && w.listed;
        assert w.modelType == e.modelType;
        ChildrenOf(w, kind, parent);
        if AnyAnnotated(TreesOf(e.children)) {
          ContainerFails(w, parent, MissingReference);
        }
      } else {
        NothingBelow(TreeOf(e));
      }
    } else {
      NothingBelow(TreeOf(e));
    }
  }

  lemma {:induction false} AllWrittenAreBuiltIff(es: seq<Element>, reference: Keys)
    requires AllSound(es) && ValidKeys(reference)
    ensures !AnyAnnotated(TreesOf(es)) ==> AllToJson(es) == es
    ensures AnyAnnotated(TreesOf(es)) ==> AllCreated(AllToJson(es), reference) == Err(MissingReference)
    decreases es, 0
  {
    hide TreeOf, HasAnnotated, Created, ToJson;
    if es != [] {
      var trees := TreesOf(es);
      assert trees[1..] == TreesOf(es[1..]);
      var written := AllToJson(es);
      assert written[1..] == AllToJson(es[1..]);
      CreatedMeans(es[0], Some(reference));
      WrittenIsBuiltIff(es[0], Some(reference));
      AllWrittenAreBuiltIff(es[1..], reference);
    }
  }

  lemma {:induction false} FirstPassOfWritten(es: seq<Element>)
    requires AllSound(es) && OwnParentsValid(es)
    ensures !AnyAnnotated(TreesOf(es)) ==> AllToJson(es) == es
    ensures AnyAnnotated(TreesOf(es)) ==> FirstPass(AllToJson(es)) == Err(MissingReference)
  {
    hide TreeOf, HasAnnotated, Created, ToJson;
    if es != [] {
      var trees := TreesOf(es);
      assert trees[1..] == TreesOf(es[1..]);
      var written := AllToJson(es);
      assert written[1..] == AllToJson(es[1..]);
      CreatedMeans(es[0], es[0].parent);
      WrittenIsBuiltIff(es[0], es[0].parent);
      FirstPassOfWritten(es[1..]);
    }
  }

  /**
   * A built submodel survives `toJSON` and `fromJSON` exactly when the JSON it came from holds no annotated
   * relationship at any depth; otherwise reading it back fails for a missing reference.
   */
  lemma SerialisedRoundTripIff(obj: Submodel)
    requires FromJson(obj).Ok?
    ensures var sm := FromJson(obj).value;
            var back := FromJson(SubmodelToJson(sm));
            back == if AnyAnnotated(TreesOf(obj.elements)) then Err(MissingReference) else Ok(sm)
  {
    var sm := FromJson(obj).value;
    FromJsonPlacesEverything(obj);
    FromJsonIsStable(obj);
    FromJsonSucceedsIff(sm);
    FirstPassOfWritten(sm.elements);
    assert AllToJson(sm.elements) == sm.elements ==> SubmodelToJson(sm) == sm;
  }

  lemma SoundHasKind(e: Element)
    requires Sound(e)
    ensures e.modelType.Some?
  {
  }

  lemma OneElement(e: Element)
    requires Sound(e)
    ensures AllSound([e]) && (OwnParentsValid([e]) <==> ValidParent(e.parent))
    ensures AnyAnnotated(TreesOf([e])) <==> HasAnnotated(TreeOf(e))
  {
    hide Sound, TreeOf, HasAnnotated, ValidParent;
    var es := [e];
    assert es[0] == e && es[1..] == [];
    assert AllSound([]) && OwnParentsValid([]) && TreesOf([]) == [];
    assert TreesOf(es) == [TreeOf(e)] + TreesOf([]) by {
      SoundHasKind(e);
    }
    assert [TreeOf(e)][1..] == [] && !AnyAnnotated([]);
  }

  /** A submodel that is built but cannot be read back: one annotated relationship without annotations. */
  lemma AnnotatedIsLost() returns (obj: Submodel)
    ensures FromJson(obj).Ok? && FromJson(SubmodelToJson(FromJson(obj).value)) == Err(MissingReference)
  {
    var to := Some([Key("IRI", "Submodel", "urn:other", true)]);
    var link := Element(Some(AnnotatedRelationshipElement), "link", None, true, [], to, to, false, None);
    obj := Submodel(Some(Identification("IRI", "urn:one")), "one", None, None, [link]);
    assert Reference(to) == Ok(to.value) && Sound(link) && HasAnnotated(TreeOf(link));
    OneElement(link);
    FromJsonSucceedsIff(obj);
    SerialisedRoundTripIff(obj);
  }

  // ---------------------------------------------------------------- attributes

  /** What a built element has of the element it was built from, apart from children and parent. */
  predicate Kept(n: Element, e: Element) {
    && n.modelType.Some? && e.modelType == n.modelType && e.idShort == n.idShort
    && (match n.modelType.value
        case RelationshipElement => n.first.Some? && n.second.Some? && e.first == n.first && e.second == n.second
        case AnnotatedRelationshipElement =>
          n.first.Some? && n.second.Some? && e.first == n.first && e.second == n.second
        case _ => e.first == None && e.second == None)
    && (if n.modelType.value == Entity then
          && e.selfManaged == n.selfManaged
          && (if n.selfManaged then n.asset.Some? && e.asset == n.asset else e.asset == None)
        else !e.selfManaged && e.asset == None)
  }

  /** Only three kinds have elements below them, and only if the attribute that lists them is present. */
  predicate HasBelow(n: Element) {
    && n.modelType in {Some(SubmodelElementCollection), Some(Entity), Some(AnnotatedRelationshipElement)}
    && n.listed
  }

  predicate KeptBelow(n: Element, e: Element)
    decreases n, 1
  {
    && Kept(n, e) && |e.children| == (if HasBelow(n) then |n.children| else 0)
    && (e.children == [] || AllKept(n.children, e.children))
  }

  predicate AllKept(ns: seq<Element>, es: seq<Element>)
    decreases ns, 0
  {
    |ns| == |es| && (ns == [] || (KeptBelow(ns[0], es[0]) && AllKept(ns[1..], es[1..])))
  }

  lemma {:induction false} DataKept(ns: seq<Element>, reference: Keys)
    requires AllData(ns).Ok?
    ensures AllKept(ns, Adopt(AllData(ns).value, reference))
    ensures |AllData(ns).value| == |ns|
  {
    if ns != [] {
      DataKept(ns[1..], reference);
      var data := AllData(ns).value;
      assert data[1..] == AllData(ns[1..]).value;
      var es := Adopt(data, reference);
      assert es[1..] == Adopt(data[1..], reference) && es[0] == CreatedData(ns[0]).value.(parent := Some(reference));
      assert KeptBelow(ns[0], es[0]);
    }
  }

  lemma {:induction false} CreatedKeeps(n: Element, parent: Option<Keys>)
    requires Created(n, parent).Ok?
    ensures KeptBelow(n, Created(n, parent).value)
    decreases n, 1
  {
    hide Children, AllData, Adopt, ElementReference, ValidParent, AllKept;
    var kind := n.modelType.value;
    if kind == AnnotatedRelationshipElement {
      DataKept(n.children, []);
      if AllData(n.children).value != [] {
        DataKept(n.children, ElementReference(kind, n.idShort, parent).value);
      }
    } else if kind in {SubmodelElementCollection, Entity} {
      ChildrenKept(n, kind, parent);
    }
  }

  lemma {:induction false} ChildrenKept(n: Element, kind: Kind, parent: Option<Keys>)
    requires Children(n, kind, parent).Ok?
    ensures Children(n, kind, parent).value == [] || AllKept(n.children, Children(n, kind, parent).value)
    ensures |Children(n, kind, parent).value| == if n.listed then |n.children| else 0
    decreases n, 0
  {
    if n.listed && n.children != [] {
      AllCreatedKept(n.children, ElementReference(kind, n.idShort, parent).value);
    }
  }

  lemma {:induction false} AllCreatedKept(ns: seq<Element>, reference: Keys)
    requires AllCreated(ns, reference).Ok?
    ensures AllKept(ns, AllCreated(ns, reference).value) && |AllCreated(ns, reference).value| == |ns|
    decreases ns, 0
  {
    hide Created, KeptBelow;
    if ns != [] {
      CreatedKeeps(ns[0], Some(reference));
      AllCreatedKept(ns[1..], reference);
      var es := AllCreated(ns, reference).value;
      assert es[0] == Created(ns[0], Some(reference)).value && es[1..] == AllCreated(ns[1..], reference).value;
    }
  }

  lemma {:induction false} NthKept(ns: seq<Element>, es: seq<Element>, p: nat)
    requires AllKept(ns, es) && p < |es|
    ensures p < |ns| && KeptBelow(ns[p], es[p])
  {
    hide KeptBelow;
    if p > 0 {
      NthKept(ns[1..], es[1..], p - 1);
    }
  }

  lemma {:induction false} KeptAt(ns: seq<Element>, es: seq<Element>, path: seq<nat>)
    requires AllKept(ns, es) && IsPath(es, path)
    ensures IsPath(ns, path) && KeptBelow(ElementAt(ns, path), ElementAt(es, path))
    decreases |path|
  {
    hide Kept, AllKept, HasBelow;
    NthKept(ns, es, path[0]);
    if |path| > 1 {
      KeptAt(ns[path[0]].children, es[path[0]].children, path[1..]);
    }
  }

  /**
   * After `fromJSON` the element at every index path is built from the element at the same path of the JSON: a
   * relationship has both its references, an entity its kind of management and, if self-managed, its asset, and a
   * container as many elements below it as the JSON lists.
   */
  lemma AttributesAreKept(obj: Submodel, path: seq<nat>)
    requires FromJson(obj).Ok? && IsPath(FromJson(obj).value.elements, path)
    ensures IsPath(obj.elements, path)
    ensures var n, e := ElementAt(obj.elements, path), ElementAt(FromJson(obj).value.elements, path);
            && n.modelType.Some? && e.modelType == n.modelType && e.idShort == n.idShort
            && |e.children| == (if HasBelow(n) then |n.children| else 0)
            && (n.modelType.value in {RelationshipElement, AnnotatedRelationshipElement} ==>
                  n.first.Some? && n.second.Some? && e.first == n.first && e.second == n.second)
            && (n.modelType.value == Entity ==>
                  && e.selfManaged == n.selfManaged
                  && (n.selfManaged ==> n.asset.Some? && e.asset == n.asset) && (!n.selfManaged ==> e.asset == None))
  {
    hide Created, AllKept, Sound;
    FromJsonPlacesEverything(obj);
    FromJsonSucceedsIff(obj);
    var reference := [SubmodelKey(obj.identification.value)];
    FirstPassMeans(obj.elements, reference);
    AllCreatedKept(obj.elements, reference);
    KeptAt(obj.elements, FromJson(obj).value.elements, path);
  }

  lemma {:induction false} ContainersHaveKinds(es: seq<Element>, base: Keys, path: seq<nat>)
    requires AllPlaced(es, base) && IsPath(es, path)
    ensures |ContainersAt(es, path)| == |path| - 1
    ensures forall k :: 0 <= k < |ContainersAt(es, path)| ==> ContainersAt(es, path)[k].modelType.Some?
    decreases |path|
  {
    if |path| > 1 {
      NthPlaced(es, base, path[0]);
      var e := es[path[0]];
      ContainersHaveKinds(e.children, [OwnKey(e.modelType.value, e.idShort)] + base, path[1..]);
    }
  }

  lemma {:induction false} KeysOf(containers: seq<Element>)
    requires forall k :: 0 <= k < |containers| ==> containers[k].modelType.Some?
    ensures |InnermostFirst(containers)| == |containers|
    ensures forall k :: 0 <= k < |containers| ==>
              var c := containers[|containers| - 1 - k];
              InnermostFirst(containers)[k] == Key("IdShort", KindName(c.modelType.value), c.idShort, true)
  {
    if containers != [] {
      KeysOf(containers[1..]);
    }
  }

  /** The parent of an element, key by key: its containers by idShort, innermost first, then the submodel by its id. */
  lemma ParentKeys(obj: Submodel, path: seq<nat>)
    requires FromJson(obj).Ok? && IsPath(FromJson(obj).value.elements, path)
    ensures var es := FromJson(obj).value.elements;
            var containers, parent := ContainersAt(es, path), ElementAt(es, path).parent;
            && obj.identification.Some? && parent.Some? && |parent.value| == |containers| + 1 == |path|
            && (forall k :: 0 <= k < |containers| ==>
                  var c := containers[|containers| - 1 - k];
                  c.modelType.Some?
                  && parent.value[k] == Key("IdShort", KindName(c.modelType.value), c.idShort, true))
            && var id := obj.identification.value;
               parent.value[|containers|] == Key(id.idType, "Submodel", id.id, true)
  {
    hide FromJson;
    ParentIsThePathToTheRoot(obj, path);
    FromJsonPlacesEverything(obj);
    var es := FromJson(obj).value.elements;
    ContainersHaveKinds(es, [SubmodelKey(obj.identification.value)], path);
    KeysOf(ContainersAt(es, path));
  }

  /** The names by which JSON tells the kinds apart. */
  lemma KindNames(name: string)
    ensures KindName(Property) == "Property" && KindName(MultiLanguageProperty) == "MultiLanguageProperty"
    ensures KindName(Range) == "Range" && KindName(Blob) == "Blob" && KindName(File) == "File"
    ensures KindName(ReferenceElement) == "ReferenceElement" && KindName(Operation) == "Operation"
    ensures KindName(SubmodelElementCollection) == "SubmodelElementCollection" && KindName(Entity) == "Entity"
    ensures KindName(RelationshipElement) == "RelationshipElement" && KindName(Capability) == "Capability"
    ensures KindName(AnnotatedRelationshipElement) == "AnnotatedRelationshipElement"
    ensures KindName(BasicEvent) == "BasicEvent" && KindName(Unsupported(name)) == name
  {
  }

  /** Of a key all of idType, type and value are required, of a reference all keys. */
  lemma ReferenceIsCompleteIff(keys: Keys)
    ensures Reference(Some(keys)) == Ok(keys)
            <==> forall p :: 0 <= p < |keys| ==> keys[p].idType != "" && keys[p].typ != "" && keys[p].value != ""
    ensures Reference(Some(keys)) != Ok(keys) ==> Reference(Some(keys)) == Err(BadKey)
    ensures Reference(None) == Err(MissingReference)
  {
  }

  /** An annotation is a property of either sort, a range, a blob, a file or a reference element, and nothing else. */
  lemma AnnotationIsBuiltIff(n: Element)
    ensures CreatedData(n).Ok? <==>
              && n.modelType in {Some(Property), Some(MultiLanguageProperty), Some(Range), Some(Blob), Some(File),
                                 Some(ReferenceElement)}
              && (n.parent.Some? ==> Reference(n.parent).Ok?)
    ensures CreatedData(n).Ok? ==> CreatedData(n).value.parent == n.parent && CreatedData(n).value.idShort == n.idShort
  {
  }

  /** Which error an element is refused with. */
  lemma Refusals(n: Element, parent: Option<Keys>)
    ensures n.modelType == None ==> Created(n, parent) == Err(NoModelType)
    ensures n.modelType.Some? && n.modelType.value.Unsupported? ==>
              Created(n, parent) == Err(UnsupportedModelType(n.modelType.value.name))
    ensures n.modelType.Some? && !n.modelType.value.Unsupported? ==>
              && (parent.Some? && Reference(parent).Err? ==> Created(n, parent) == Err(BadKey))
              && (ValidParent(parent) && n.modelType.value in {RelationshipElement, AnnotatedRelationshipElement} ==>
                    && (Reference(n.first).Err? ==> Created(n, parent) == Err(Reference(n.first).error))
                    && (Reference(n.first).Ok? && Reference(n.second).Err? ==>
                          Created(n, parent) == Err(Reference(n.second).error))
                    && (Reference(n.first).Ok? && Reference(n.second).Ok? && !n.listed
                        && n.modelType.value == AnnotatedRelationshipElement ==>
                          Created(n, parent) == Err(MissingAnnotation)))
              && (ValidParent(parent) && n.modelType.value == Entity && SoundChildren(n) && n.selfManaged ==>
                    && (n.asset == None ==> Created(n, parent) == Err(MissingAsset))
                    && (n.asset.Some? && Reference(n.asset).Err? ==> Created(n, parent) == Err(BadKey)))
  {
    hide Children;
    if n.modelType.Some? && !n.modelType.value.Unsupported? && ValidParent(parent) {
      ChildrenMean(n, parent);
    }
  }

  lemma {:induction false} DataIsWritten(es: seq<Element>)
    requires forall p :: 0 <= p < |es| ==> es[p].modelType.Some? && IsData(es[p].modelType.value)
    ensures AllToJson(es) == es
  {
    if es != [] {
      DataIsWritten(es[1..]);
    }
  }

  /** An annotated relationship is written without its references, but with everything else. */
  lemma WrittenWithoutReferences(e: Element)
    requires e.modelType == Some(AnnotatedRelationshipElement) && e.listed
    requires forall p :: 0 <= p < |e.children| ==>
               e.children[p].modelType.Some? && IsData(e.children[p].modelType.value)
    ensures ToJson(e) == e.(first := None, second := None)
  {
    DataIsWritten(e.children);
  }
}
