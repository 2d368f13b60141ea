/** Setting properties on stored entities: `fill_optional_properties`
    (blog.py:107-110) and the body of `process_article_edit` (blog.py:112-135),
    with the datastore entity reduced to a map of attribute names to values. */
module Properties {

  /** An attribute value, as far as Python's truth test needs it. */
  datatype Value =
    | NoneValue
    | BoolValue(b: bool)
    | IntValue(i: int)
    | StringValue(s: string)
    | ListValue(items: seq<Value>)

  /** Python's `bool(v)`: `None`, `False`, `0` and empty strings or lists are false. */
  predicate Truthy(v: Value) {
    match v
    case NoneValue => false
    case BoolValue(b) => b
    case IntValue(i) => i != 0
    case StringValue(s) => s != []
    case ListValue(items) => items != []
  }

  /** A stored entity: its permalink and the attributes set on it (its `__dict__`). */
  class Entity {
    const permalink: string
    var attrs: map<string, Value>

    constructor (permalink: string, attrs: map<string, Value>)
      ensures this.permalink == permalink && this.attrs == attrs
    {
      this.permalink := permalink;
      this.attrs := attrs;
    }
  }

  /** The attributes once the optional properties are filled in: an attribute
      already present is never overwritten, only truthy values are added, and
      the attributes are the old ones plus the keys of the truthy values. */
  function Filled(attrs: map<string, Value>, props: map<string, Value>): (r: map<string, Value>)
    ensures forall k :: k in attrs ==> k in r && r[k] == attrs[k]
    ensures forall k :: k in r && k !in attrs ==> k in props && Truthy(props[k]) && r[k] == props[k]
    ensures forall k :: k in props && Truthy(props[k]) ==> k in r
  {
    map k | k in attrs.Keys + props.Keys && (k in attrs || Truthy(props[k])) ::
      if k in attrs then attrs[k] else props[k]
  }

  /** Filling in the same properties a second time changes nothing. */
  lemma FilledIdempotent(attrs: map<string, Value>, props: map<string, Value>)
    ensures Filled(Filled(attrs, props), props) == Filled(attrs, props)
  {
    var once := Filled(attrs, props);
    var twice := Filled(once, props);
    assert forall k :: k in twice <==> k in once;
  }

  /** After every property has been set outright, filling them in changes nothing. */
  lemma FilledAfterSet(attrs: map<string, Value>, props: map<string, Value>)
    ensures Filled(attrs + props, props) == attrs + props
  {
    var r := Filled(attrs + props, props);
    assert forall k :: k in r <==> k in attrs + props;
  }

  /** The properties `keys` of `props`, the ones the loop has visited. */
  function Restrict(props: map<string, Value>, keys: set<string>): (r: map<string, Value>)
    ensures r.Keys == props.Keys * keys
    ensures forall k :: k in r ==> r[k] == props[k]
  {
    map k | k in props.Keys * keys :: props[k]
  }

  /** `fill_optional_properties(obj, property_dict)`: each truthy value whose
      key is not yet an attribute of the object is set on it. */
  method FillOptionalProperties(obj: Entity, props: map<string, Value>)
    modifies obj
    ensures obj.attrs == Filled(old(obj.attrs), props)
  {
    var todo := props.Keys;
    ghost var done: set<string> := {};
    while todo != {}
      invariant todo + done == props.Keys && todo !! done
      invariant obj.attrs == Filled(old(obj.attrs), Restrict(props, done))
      decreases todo
    {
      var key :| key in todo;
      var value := props[key];
      if Truthy(value) && key !in obj.attrs {
        obj.attrs := obj.attrs[key := value];
      }
      todo := todo - {key};
      done := done + {key};
      assert obj.attrs == Filled(old(obj.attrs), Restrict(props, done)) by {
        var m := Filled(old(obj.attrs), Restrict(props, done));
        assert forall k :: k in m <==> k in obj.attrs;
      }
    }
    assert Restrict(props, done) == props;
  }

  /** The loop `params[key] = value[0]` over the result of `cgi.parse_qs`:
      every parameter keeps its first value. `parse_qs` never yields an empty
      list of values. */
  method FlattenParams(params: map<string, seq<string>>) returns (flat: map<string, string>)
    requires forall k :: k in params ==> params[k] != []
    ensures flat.Keys == params.Keys
    ensures forall k :: k in params ==> flat[k] == params[k][0]
  {
    flat := map[];
    var todo := params.Keys;
    while todo != {}
      invariant todo <= params.Keys
      invariant flat.Keys == params.Keys - todo
      invariant forall k :: k in flat ==> flat[k] == params[k][0]
      decreases todo
    {
      var key :| key in todo;
      flat := flat[key := params[key][0]];
      todo := todo - {key};
    }
  }

  /** The loop `setattr(article, key, value)` over the property hash: every
      sent property replaces the attribute of the same name. */
  method SetProperties(obj: Entity, hash: map<string, Value>)
    modifies obj
    ensures obj.attrs == old(obj.attrs) + hash
  {
    var todo := hash.Keys;
    while todo != {}
      invariant todo <= hash.Keys
      invariant obj.attrs.Keys == old(obj.attrs).Keys + (hash.Keys - todo)
      invariant forall k :: k in obj.attrs ==>
        obj.attrs[k] == if k in hash && k !in todo then hash[k] else old(obj.attrs)[k]
      decreases todo
    {
      var key :| key in todo;
      obj.attrs := obj.attrs[key := hash[key]];
      todo := todo - {key};
    }
  }

  /** The answer to an edit: 400 when nothing was sent, a server error when no
      article has the permalink (the code reads an attribute of `None`), and
      otherwise success with the article's location. */
  datatype EditResult = BadRequest | ServerError | Updated(location: string)

  /** `process_article_edit(handler, permalink)` once the sent properties are
      known: the article stored under the permalink receives every one of them. */
  method EditArticle(articles: map<string, Entity>, permalink: string, hash: map<string, Value>)
    returns (r: EditResult)
    requires forall p :: p in articles ==> articles[p].permalink == p
    modifies if permalink in articles then {articles[permalink]} else {}
    ensures hash == map[] ==> r == BadRequest
    ensures hash != map[] && permalink !in articles ==> r == ServerError
    ensures hash != map[] && permalink in articles ==>
      && articles[permalink].attrs == old(articles[permalink].attrs) + hash
      && r == Updated("/" + permalink)
    ensures hash == map[] && permalink in articles ==>
      articles[permalink].attrs == old(articles[permalink].attrs)
  {
    if hash == map[] {
      return BadRequest;
    }
    if permalink !in articles {
      return ServerError;
    }
    var article := articles[permalink];
    SetProperties(article, hash);
    r := Updated("/" + article.permalink);
  }
}
