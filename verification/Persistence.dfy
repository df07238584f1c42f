/** _NSPersist: how one public property of a responder is carried from one request to the
    next inside the page's form. A persistor is only ever reached through the responder that
    owns it, so it is a record in the owner's list, and the property it watches is an entry of
    the owner's property map. */
module Persistence {
  import opened Php

  type Properties = map<string, Value>
  type Form = map<string, string>

  datatype Persistor = Persistor(property: string, name: Option<string>, default: Value)

  /** One named form control of a page. A Submit control is only sent when it is pressed; what
      a Choice sends is picked by the user among `count` options, one of them preselected. */
  datatype Input =
    | Hidden(name: string, value: string)
    | Typed(name: string, value: string)
    | Submit(name: string)
    | Choice(name: string, count: nat, selected: int)

  /** Every persistor watches a property of its owner, and no property has two persistors. */
  ghost predicate Registered(ps: seq<Persistor>, props: Properties)
  {
    && (forall i :: 0 <= i < |ps| ==> ps[i].property in props)
    && (forall i, j :: 0 <= i < j < |ps| ==> ps[i].property != ps[j].property)
  }

  function AutoName(id: string, property: string): (s: string)
  {
    id + "-" + property
  }

  function NameOf(id: string, p: Persistor): (s: string)
  {
    if p.name.Some? then p.name.value else AutoName(id, p.property)
  }

  /** All names under which a persistor may look into the form: a renamed persistor has
      already looked under its automatic name when it was constructed. */
  function Claims(id: string, p: Persistor): (names: set<string>)
  {
    {AutoName(id, p.property), NameOf(id, p)}
  }

  /** `read`: the form overrides the property if it has an entry. */
  function ReadOne(id: string, p: Persistor, props: Properties, post: Form): Properties
  {
    if NameOf(id, p) in post then props[p.property := Str(post[NameOf(id, p)])] else props
  }

  function ReadAll(id: string, ps: seq<Persistor>, props: Properties, post: Form): (r: Properties)
    ensures props.Keys <= r.Keys
  {
    if ps == [] then props else ReadAll(id, ps[1..], ReadOne(id, ps[0], props, post), post)
  }

  /** `write`: a hidden input unless the property (still) is identical to its default. */
  function WriteOne(id: string, p: Persistor, props: Properties): seq<Input>
    requires p.property in props
  {
    if props[p.property] == p.default then [] else [Hidden(NameOf(id, p), Text(props[p.property]))]
  }

  function WriteAll(id: string, ps: seq<Persistor>, props: Properties): seq<Input>
    requires Registered(ps, props)
  {
    if ps == [] then [] else WriteOne(id, ps[0], props) + WriteAll(id, ps[1..], props)
  }

  /** `unpersist` of the first persistor: its default becomes the current value. */
  function UnpersistFirst(ps: seq<Persistor>, props: Properties): seq<Persistor>
    requires Registered(ps, props) && |ps| > 0
  {
    ps[0 := ps[0].(default := props[ps[0].property])]
  }

  /** What a property holds after construction: the default, overridden by an entry under the
      automatic name, overridden by an entry under the custom name. */
  function Constructed(id: string, p: Persistor, post: Form): Value
  {
    if NameOf(id, p) in post then Str(post[NameOf(id, p)])
    else if AutoName(id, p.property) in post then Str(post[AutoName(id, p.property)])
    else p.default
  }

  // ----- names -----

  /** The automatic naming scheme is injective as long as property names hold no dash. */
  lemma AutoNameInjective(id: string, p: string, id': string, p': string)
    requires '-' !in p && '-' !in p'
    requires AutoName(id, p) == AutoName(id', p')
    ensures id == id' && p == p'
  {
    var n, n' := AutoName(id, p), AutoName(id', p');
    assert n[|id|] == '-' && n'[|id'|] == '-';
    assert forall i :: |id| < i < |n| ==> n[i] == p[i - |id| - 1];
    assert forall i :: |id'| < i < |n'| ==> n'[i] == p'[i - |id'| - 1];
    assert |id| == |id'|;
    assert n[..|id|] == id && n'[..|id|] == id';
    assert n[|id| + 1..] == p && n'[|id| + 1..] == p';
  }

  /** A name without a dash, such as NSEvent or scrollX, is never an automatic name. */
  lemma AutoNameHasDash(id: string, p: string)
    ensures '-' in AutoName(id, p)
  {
    assert AutoName(id, p)[|id|] == '-';
  }
}
