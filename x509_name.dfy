/** The part of an X.509 certificate the view reads: the subject name as an
    ordered sequence of (attribute type, value) pairs, following section
    4.1.2.6 of RFC 5280, and the library's lookup of the attributes of one
    type. */
module X509Name {

  /** An object identifier, as its sequence of arcs. */
  datatype Oid = Oid(arcs: seq<nat>)

  /** id-at-commonName (2.5.4.3). */
  const CommonNameOid := Oid([2, 5, 4, 3])

  datatype Attribute = Attribute(oid: Oid, value: string)

  /** The subject as the library exposes it. The library decodes the name
      only when it is first read, and that read can raise: `Undecodable`
      stands for a subject whose read fails. */
  datatype Subject = Decoded(attributes: seq<Attribute>) | Undecodable

  datatype Certificate = Certificate(subject: Subject)

  /** `i` is the position of the first attribute of type `oid`. */
  ghost predicate IsFirstWithOid(attributes: seq<Attribute>, oid: Oid, i: int)
  {
    && 0 <= i < |attributes|
    && attributes[i].oid == oid
    && forall j :: 0 <= j < i ==> attributes[j].oid != oid
  }

  /** `Name.get_attributes_for_oid`: the attributes of type `oid`, in
      subject order. */
  function AttributesForOid(attributes: seq<Attribute>, oid: Oid): (r: seq<Attribute>)
    ensures |r| <= |attributes|
    ensures forall a :: a in r <==> a in attributes && a.oid == oid
  {
    if attributes == [] then []
    else if attributes[0].oid == oid then [attributes[0]] + AttributesForOid(attributes[1..], oid)
    else AttributesForOid(attributes[1..], oid)
  }

  /** The head of the lookup is the first attribute of that type in the
      subject, and the lookup is empty exactly when there is none. */
  lemma {:induction false} AttributesForOidHead(attributes: seq<Attribute>, oid: Oid)
    ensures AttributesForOid(attributes, oid) == [] <==> forall a :: a in attributes ==> a.oid != oid
    ensures forall i :: IsFirstWithOid(attributes, oid, i) ==> AttributesForOid(attributes, oid)[0] == attributes[i]
  {
    if attributes != [] && attributes[0].oid != oid {
      var tail := attributes[1..];
      AttributesForOidHead(tail, oid);
      forall i | IsFirstWithOid(attributes, oid, i)
        ensures AttributesForOid(attributes, oid)[0] == attributes[i]
      {
        assert IsFirstWithOid(tail, oid, i - 1);
      }
    }
  }

  /** Every subject either has no attribute of type `oid` or has a first
      one. */
  lemma {:induction false} FirstWithOidExists(attributes: seq<Attribute>, oid: Oid)
    ensures (forall a :: a in attributes ==> a.oid != oid) || exists i :: IsFirstWithOid(attributes, oid, i)
  {
    if attributes != [] && attributes[0].oid == oid {
      assert IsFirstWithOid(attributes, oid, 0);
    } else if attributes != [] {
      var tail := attributes[1..];
      FirstWithOidExists(tail, oid);
      if i :| IsFirstWithOid(tail, oid, i) {
        assert IsFirstWithOid(attributes, oid, i + 1);
      } else {
        assert attributes == [attributes[0]] + tail;
      }
    }
  }

  /** The lookup distributes over the concatenation of two subjects. */
  lemma {:induction false} AttributesForOidConcat(a: seq<Attribute>, b: seq<Attribute>, oid: Oid)
    ensures AttributesForOid(a + b, oid) == AttributesForOid(a, oid) + AttributesForOid(b, oid)
  {
    if a != [] {
      assert (a + b)[1..] == a[1..] + b;
      AttributesForOidConcat(a[1..], b, oid);
    } else {
      assert a + b == b;
    }
  }
}
