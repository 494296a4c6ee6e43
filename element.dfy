/** `Element`, the in-memory XML element the COLLADA writer builds: a name,
    attributes, optional text, a list of children and a parent link, with
    `append`, `Child`, `get` and `set`, and the rewriting of a `ns:key`
    attribute name through the document's namespaces. */
module XmlElements {
  import opened Wrappers

  /** What `append` may be given: a string, an element, or anything else
      (named by its type). */
  datatype Appendable = Str(s: string) | Elem(e: Element) | Other(typeName: string)

  /** The text after appending `s`: `s` itself when there was none, else the
      two joined. */
  function TextAfter(text: Option<string>, s: string): (r: Option<string>)
  {
    if text.None? then Some(s) else Some(text.value + s)
  }

  /** Appending two strings one after the other appends their concatenation. */
  lemma TextAfterTwice(text: Option<string>, a: string, b: string)
    ensures TextAfter(TextAfter(text, a), b) == TextAfter(text, a + b)
  {
    if text.Some? {
      assert (text.value + a) + b == text.value + (a + b);
    }
  }

  /** Appended text always ends with what was appended, after what was there. */
  lemma TextAfterExtends(text: Option<string>, s: string)
    ensures TextAfter(text, s).Some?
    ensures var t := TextAfter(text, s).value;
      |t| >= |s| && t[|t| - |s|..] == s && (text.Some? ==> t[..|text.value|] == text.value)
  {
  }

  /** `attrs.get(name, *default)`: the stored value, else the default (Python's
      None when none is given). */
  function Lookup(attrs: map<string, string>, key: string, default: Option<string>): (r: Option<string>)
  {
    if key in attrs then Some(attrs[key]) else default
  }

  /** A value `set` under a key is what `get` then returns, and no other key
      changes. */
  lemma LookupAfterSet(attrs: map<string, string>, key: string, v: string, other: string, default: Option<string>)
    ensures Lookup(attrs[key := v], key, default) == Some(v)
    ensures other != key ==> Lookup(attrs[key := v], other, default) == Lookup(attrs, other, default)
  {
  }

  /** After `set(dict)` every key of the dict reads its new value and every
      other key its old one. */
  lemma LookupAfterMerge(attrs: map<string, string>, m: map<string, string>, key: string, default: Option<string>)
    ensures Lookup(attrs + m, key, default) == if key in m then Some(m[key]) else Lookup(attrs, key, default)
  {
  }

  // ---------------------------------------------------------------- namespaces

  /** The index of the first ':' in `k`, if any. */
  function ColonAt(k: string): (r: Option<nat>)
    ensures r.Some? <==> ':' in k
    ensures r.Some? ==> r.value < |k| && k[r.value] == ':' && ':' !in k[..r.value]
  {
    if |k| == 0 then None
    else if k[0] == ':' then Some(0)
    else
      var rest := ColonAt(k[1..]);
      assert k[1..][..0] == [];
      if rest.None? then None
      else
        assert k[..rest.value + 1] == [k[0]] + k[1..][..rest.value];
        Some(rest.value + 1)
  }

  /** The attribute name written for key `k`: a `ns:key` name (split at its
      first colon) becomes `{uri}key` with the namespace's URI; a namespace
      the document does not define is a KeyError; a key without a colon is
      kept. */
  function QualifiedKey(k: string, namespaces: map<string, string>): (r: Result<string>)
  {
    match ColonAt(k)
    case None => Ok(k)
    case Some(i) =>
      var ns := k[..i];
      if ns !in namespaces then Err(KeyError)
      else Ok("{" + namespaces[ns] + "}" + k[i + 1..])
  }

  /** Reading a `{uri}key` name back: the URI and the local key. */
  function Unqualify(q: string): Option<(string, string)>
  {
    if |q| == 0 || q[0] != '{' then None
    else
      match CloseAt(q[1..])
      case None => None
      case Some(j) => Some((q[1..][..j], q[1..][j + 1..]))
  }

  /** The index of the first '}' in `s`, if any. */
  function CloseAt(s: string): (r: Option<nat>)
    ensures r.Some? ==> r.value < |s| && s[r.value] == '}' && '}' !in s[..r.value]
    ensures r.None? ==> '}' !in s
  {
    if |s| == 0 then None
    else if s[0] == '}' then Some(0)
    else
      var rest := CloseAt(s[1..]);
      if rest.None? then None
      else
        assert s[..rest.value + 1] == [s[0]] + s[1..][..rest.value];
        Some(rest.value + 1)
  }

  /** The first '}' of `u + "}" + rest` is the one after `u` when `u` has none. */
  lemma {:induction false} CloseAfter(u: string, rest: string)
    requires '}' !in u
    ensures CloseAt(u + "}" + rest) == Some(|u|)
    decreases |u|
  {
    var s := u + "}" + rest;
    if |u| > 0 {
      assert s[1..] == u[1..] + "}" + rest;
      CloseAfter(u[1..], rest);
    }
  }

  /** The first ':' of `ns + ":" + local` is the one after `ns` when `ns` has
      none, so the local part keeps any further colons. */
  lemma {:induction false} ColonAfter(ns: string, local: string)
    requires ':' !in ns
    ensures ColonAt(ns + ":" + local) == Some(|ns|)
    decreases |ns|
  {
    var k := ns + ":" + local;
    if |ns| > 0 {
      assert k[1..] == ns[1..] + ":" + local;
      ColonAfter(ns[1..], local);
    }
  }

  /** A `ns:key` name of a defined namespace is rewritten to a name from
      which the namespace's URI and the key are read back. */
  lemma QualifiedRoundTrip(ns: string, local: string, namespaces: map<string, string>)
    requires ':' !in ns && ns in namespaces && '}' !in namespaces[ns]
    ensures QualifiedKey(ns + ":" + local, namespaces).Ok?
    ensures Unqualify(QualifiedKey(ns + ":" + local, namespaces).value) == Some((namespaces[ns], local))
  {
    var k := ns + ":" + local;
    var uri := namespaces[ns];
    ColonAfter(ns, local);
    assert k[..|ns|] == ns && k[|ns| + 1..] == local;
    var q := "{" + uri + "}" + local;
    assert QualifiedKey(k, namespaces) == Ok(q);
    assert q[1..] == uri + "}" + local;
    CloseAfter(uri, local);
    assert q[1..][..|uri|] == uri && q[1..][|uri| + 1..] == local;
  }

  /** A name whose namespace the document does not define is a KeyError, and
      a name without a colon is kept as it is. */
  lemma QualifiedKeyCases(ns: string, local: string, k: string, namespaces: map<string, string>)
    requires ':' !in ns && ns !in namespaces
    ensures QualifiedKey(ns + ":" + local, namespaces) == Err(KeyError)
    ensures ':' !in k ==> QualifiedKey(k, namespaces) == Ok(k)
  {
    ColonAfter(ns, local);
    assert (ns + ":" + local)[..|ns|] == ns;
  }

  // ---------------------------------------------------------------- the element

  class Element {
    var name: string
    var attrs: map<string, string>
    var text: Option<string>
    var children: seq<Element>
    var parent: Option<Element>

    /** `Element(name, *children, **attrs)`: no text and no parent; the
        children given are kept as they are, their parents untouched. */
    constructor(name: string, kids: seq<Element>, attrs: map<string, string>)
      ensures this.name == name && this.attrs == attrs && this.children == kids
      ensures text == None && parent == None
    {
      this.name := name;
      this.attrs := attrs;
      text := None;
      children := kids;
      parent := None;
    }

    /** `append(child)`: a string is added to the text; an element becomes
        the last child and gets this element as its parent (an existing
        parent is only warned about, `warned`); anything else is a TypeError
        and changes nothing. */
    method Append(child: Appendable) returns (r: Result<()>, warned: bool)
      modifies this, if child.Elem? then {child.e} else {}
      ensures name == old(name) && attrs == old(attrs)
      ensures child.Str? ==> (r == Ok(()) && !warned && text == TextAfter(old(text), child.s) &&
                              children == old(children) && parent == old(parent))
      ensures child.Elem? ==> (r == Ok(()) && warned == old(child.e.parent).Some? &&
                               child.e.parent == Some(this) && children == old(children) + [child.e] &&
                               text == old(text))
      ensures child.Elem? && child.e != this ==> (parent == old(parent) &&
        child.e.name == old(child.e.name) && child.e.attrs == old(child.e.attrs) &&
        child.e.text == old(child.e.text) && child.e.children == old(child.e.children))
      ensures child.Other? ==> r == Err(TypeError) && !warned && unchanged(this)
    {
      warned := false;
      match child {
        case Str(s) =>
          text := TextAfter(text, s);
        case Elem(e) =>
          warned := e.parent.Some?;
          e.parent := Some(this);
          children := children + [e];
        case Other(_) =>
          return Err(TypeError), false;
      }
      r := Ok(());
    }

    /** `Child(name, *children, **attrs)`: a new element appended to this one
        and returned. */
    method Child(name: string, kids: seq<Element>, attrs: map<string, string>) returns (child: Element)
      modifies this
      ensures fresh(child) && child.name == name && child.attrs == attrs && child.children == kids
      ensures child.text == None && child.parent == Some(this)
      ensures children == old(children) + [child] && text == old(text)
      ensures this.name == old(this.name) && this.attrs == old(this.attrs) && parent == old(parent)
    {
      child := new Element(name, kids, attrs);
      var _, _ := Append(Elem(child));
    }

    /** The `text` setter: the text is replaced outright. */
    method SetText(t: Option<string>)
      modifies this
      ensures text == t
      ensures name == old(name) && attrs == old(attrs) && children == old(children) && parent == old(parent)
    {
      text := t;
    }

    /** `get(name, *default)`. */
    function Get(key: string, default: Option<string>): (r: Option<string>)
      reads this
    {
      Lookup(attrs, key, default)
    }

    /** `set(name, *val)` with a name: the first value is stored; no value is
        an IndexError and changes nothing. */
    method Set(key: string, vals: seq<string>) returns (r: Result<()>)
      modifies this
      ensures |vals| == 0 ==> r == Err(IndexError) && attrs == old(attrs)
      ensures |vals| > 0 ==> r == Ok(()) && attrs == old(attrs)[key := vals[0]]
      ensures name == old(name) && text == old(text) && children == old(children) && parent == old(parent)
    {
      if |vals| == 0 {
        return Err(IndexError);
      }
      attrs := attrs[key := vals[0]];
      r := Ok(());
    }

    /** `set(dict)`: every pair of the dict is stored. */
    method SetAll(m: map<string, string>)
      modifies this
      ensures attrs == old(attrs) + m
      ensures name == old(name) && text == old(text) && children == old(children) && parent == old(parent)
    {
      attrs := attrs + m;
    }
  }
}
