/**
 * The document CrptApi submits and its two nested value classes, with their
 * hand-written field-by-field `equals` and 31-multiplier `hashCode`.
 *
 * A Java `null` field is `None`. The `equals` and `hashCode` of the library
 * classes the fields hold (String, LocalDate, Boolean) are not looked into:
 * they are parameters, collected in a Library, about which only the general
 * contract of Object.equals and Object.hashCode is ever assumed.
 */
module Documents {
  import opened Wrappers
  import opened JavaInt

  datatype LocalDate = LocalDate(year: int, month: int, day: int)

  datatype Description = Description(participantInn: Option<string>)

  datatype Product = Product(
    certificateDocument: Option<string>,
    certificateDocumentDate: Option<LocalDate>,
    certificateDocumentNumber: Option<string>,
    ownerInn: Option<string>,
    producerInn: Option<string>,
    productionDate: Option<LocalDate>,
    tnvedCode: Option<string>,
    uitCode: Option<string>,
    uituCode: Option<string>)

  datatype Document = Document(
    description: Option<Description>,
    documentId: Option<string>,
    documentStatus: Option<string>,
    documentType: Option<string>,
    importRequest: Option<bool>,
    ownerInn: Option<string>,
    participantInn: Option<string>,
    producerInn: Option<string>,
    productionDate: Option<LocalDate>,
    productionType: Option<string>,
    products: Option<seq<Option<Product>>>,
    regDate: Option<LocalDate>,
    regNumber: Option<string>)

  /** `equals` between two non-null values of a class, and its `hashCode`. */
  datatype Ops<!T> = Ops(equal: (T, T) -> bool, hash: T -> int32)

  datatype Library = Library(strings: Ops<string>, dates: Ops<LocalDate>, booleans: Ops<bool>)

  /** The general contract: an equivalence relation, and equal values hash alike. */
  ghost predicate Lawful<T(!new)>(ops: Ops<T>) {
    && (forall x :: ops.equal(x, x))
    && (forall x, y :: ops.equal(x, y) ==> ops.equal(y, x))
    && (forall x, y, z :: ops.equal(x, y) && ops.equal(y, z) ==> ops.equal(x, z))
    && (forall x, y :: ops.equal(x, y) ==> ops.hash(x) == ops.hash(y))
  }

  ghost predicate LawfulLibrary(lib: Library) {
    Lawful(lib.strings) && Lawful(lib.dates) && Lawful(lib.booleans)
  }

  /** `equals` is value equality, as it is for String, LocalDate and Boolean. */
  ghost predicate IsValueEquality<T(!new)>(ops: Ops<T>) {
    forall x, y :: ops.equal(x, y) <==> x == y
  }

  ghost predicate ValueLibrary(lib: Library) {
    IsValueEquality(lib.strings) && IsValueEquality(lib.dates) && IsValueEquality(lib.booleans)
  }

  /** `a != null ? a.equals(b) : b == null`, where `equals(null)` is false. */
  function FieldEquals<T>(equal: (T, T) -> bool, a: Option<T>, b: Option<T>): (r: bool)
    ensures r ==> (a.None? <==> b.None?)
    ensures a.None? ==> (r <==> b.None?)
    ensures b.None? ==> (r <==> a.None?)
    ensures a.Some? && b.Some? ==> (r <==> equal(a.value, b.value))
  {
    match a
    case None => b.None?
    case Some(x) => b.Some? && equal(x, b.value)
  }

  /** `a != null ? a.hashCode() : 0` */
  function FieldHash<T>(hash: T -> int32, a: Option<T>): (r: int32)
    ensures a.None? ==> r == 0
  {
    match a
    case None => 0
    case Some(x) => hash(x)
  }

  /** The null-safe comparison of a field keeps the laws of the field's class. */
  lemma FieldLaws<T(!new)>(ops: Ops<T>)
    requires Lawful(ops)
    ensures forall a :: FieldEquals(ops.equal, a, a)
    ensures forall a, b :: FieldEquals(ops.equal, a, b) ==> FieldEquals(ops.equal, b, a)
    ensures forall a, b, c :: FieldEquals(ops.equal, a, b) && FieldEquals(ops.equal, b, c) ==> FieldEquals(ops.equal, a, c)
    ensures forall a, b :: FieldEquals(ops.equal, a, b) ==> FieldHash(ops.hash, a) == FieldHash(ops.hash, b)
  {
  }

  lemma FieldValueEquality<T(!new)>(ops: Ops<T>)
    requires IsValueEquality(ops)
    ensures forall a, b :: FieldEquals(ops.equal, a, b) <==> a == b
  {
  }

  /** `31 * result + h` over the field hashes in declaration order, from 0. */
  function HashFold(hs: seq<int32>): int32
    decreases |hs|
  {
    if hs == [] then 0 else Mix(HashFold(hs[..|hs| - 1]), hs[|hs| - 1])
  }

  lemma HashFoldSnoc(hs: seq<int32>, k: nat)
    requires k < |hs|
    ensures HashFold(hs[..k + 1]) == Mix(HashFold(hs[..k]), hs[k])
  {
    assert hs[..k + 1][..k] == hs[..k];
  }

  lemma HashFoldOfNine(h0: int32, h1: int32, h2: int32, h3: int32, h4: int32, h5: int32, h6: int32, h7: int32, h8: int32)
    ensures HashFold([h0, h1, h2, h3, h4, h5, h6, h7, h8]) == Mix(Mix(Mix(Mix(Mix(Mix(Mix(Mix(h0, h1), h2), h3), h4), h5), h6), h7), h8)
  {
    var hs := [h0, h1, h2, h3, h4, h5, h6, h7, h8];
    assert hs[..0] == [];
    HashFoldSnoc(hs, 0);
    HashFoldSnoc(hs, 1);
    HashFoldSnoc(hs, 2);
    HashFoldSnoc(hs, 3);
    HashFoldSnoc(hs, 4);
    HashFoldSnoc(hs, 5);
    HashFoldSnoc(hs, 6);
    HashFoldSnoc(hs, 7);
    HashFoldSnoc(hs, 8);
    assert hs[..9] == hs;
  }

  lemma HashFoldOfThirteen(h0: int32, h1: int32, h2: int32, h3: int32, h4: int32, h5: int32, h6: int32, h7: int32, h8: int32, h9: int32, h10: int32, h11: int32, h12: int32)
    ensures HashFold([h0, h1, h2, h3, h4, h5, h6, h7, h8, h9, h10, h11, h12]) == Mix(Mix(Mix(Mix(Mix(Mix(Mix(Mix(Mix(Mix(Mix(Mix(h0, h1), h2), h3), h4), h5), h6), h7), h8), h9), h10), h11), h12)
  {
    var hs := [h0, h1, h2, h3, h4, h5, h6, h7, h8, h9, h10, h11, h12];
    assert hs[..0] == [];
    HashFoldSnoc(hs, 0);
    HashFoldSnoc(hs, 1);
    HashFoldSnoc(hs, 2);
    HashFoldSnoc(hs, 3);
    HashFoldSnoc(hs, 4);
    HashFoldSnoc(hs, 5);
    HashFoldSnoc(hs, 6);
    HashFoldSnoc(hs, 7);
    HashFoldSnoc(hs, 8);
    HashFoldSnoc(hs, 9);
    HashFoldSnoc(hs, 10);
    HashFoldSnoc(hs, 11);
    HashFoldSnoc(hs, 12);
    assert hs[..13] == hs;
  }

  /** hs[0] * 31^(n-1) + ... + hs[n-1], computed exactly. */
  function Polynomial(hs: seq<int32>): int
    decreases |hs|
  {
    if hs == [] then 0 else 31 * Polynomial(hs[..|hs| - 1]) + hs[|hs| - 1] as int
  }

  /** The folded hash is the base-31 polynomial of the field hashes, wrapped to 32 bits. */
  lemma {:induction false} HashFoldIsPolynomial(hs: seq<int32>)
    ensures HashFold(hs) == Wrap(Polynomial(hs))
    decreases |hs|
  {
    if hs != [] {
      var init := hs[..|hs| - 1];
      HashFoldIsPolynomial(init);
      var p := Polynomial(init);
      var k := (p - Wrap(p) as int) / 0x1_0000_0000;
      assert p == Wrap(p) as int + k * 0x1_0000_0000;
      calc {
        Polynomial(hs);
        31 * p + hs[|hs| - 1] as int;
        (31 * Wrap(p) as int + hs[|hs| - 1] as int) + (31 * k) * 0x1_0000_0000;
      }
      WrapShift(31 * Wrap(p) as int + hs[|hs| - 1] as int, 31 * k);
    }
  }

  // ---------------------------------------------------------------- Description

  /** Description.equals(o) */
  function DescriptionEquals(lib: Library, d: Description, o: Option<Description>): (r: bool)
    ensures o.None? ==> !r
    ensures r ==> (d.participantInn.None? <==> o.value.participantInn.None?)
  {
    o.Some? && FieldEquals(lib.strings.equal, d.participantInn, o.value.participantInn)
  }

  /** Description.hashCode() */
  function DescriptionHash(lib: Library, d: Description): (r: int32)
    ensures d.participantInn.None? ==> r == 0
  {
    FieldHash(lib.strings.hash, d.participantInn)
  }

  function DescriptionOps(lib: Library): Ops<Description> {
    Ops((x, y) => DescriptionEquals(lib, x, Some(y)), x => DescriptionHash(lib, x))
  }

  lemma DescriptionLaws(lib: Library)
    requires LawfulLibrary(lib)
    ensures Lawful(DescriptionOps(lib))
  {
    FieldLaws(lib.strings);
  }

  // ---------------------------------------------------------------- Product

  /** Product.equals(o) */
  function ProductEquals(lib: Library, p: Product, o: Option<Product>): (r: bool)
    ensures o.None? ==> !r
    ensures r ==>
      && (p.certificateDocument.None? <==> o.value.certificateDocument.None?)
      && (p.certificateDocumentDate.None? <==> o.value.certificateDocumentDate.None?)
      && (p.certificateDocumentNumber.None? <==> o.value.certificateDocumentNumber.None?)
      && (p.ownerInn.None? <==> o.value.ownerInn.None?)
      && (p.producerInn.None? <==> o.value.producerInn.None?)
      && (p.productionDate.None? <==> o.value.productionDate.None?)
      && (p.tnvedCode.None? <==> o.value.tnvedCode.None?)
      && (p.uitCode.None? <==> o.value.uitCode.None?)
      && (p.uituCode.None? <==> o.value.uituCode.None?)
  {
    o.Some? &&
    var q := o.value;
    && FieldEquals(lib.strings.equal, p.certificateDocument, q.certificateDocument)
    && FieldEquals(lib.dates.equal, p.certificateDocumentDate, q.certificateDocumentDate)
    && FieldEquals(lib.strings.equal, p.certificateDocumentNumber, q.certificateDocumentNumber)
    && FieldEquals(lib.strings.equal, p.ownerInn, q.ownerInn)
    && FieldEquals(lib.strings.equal, p.producerInn, q.producerInn)
    && FieldEquals(lib.dates.equal, p.productionDate, q.productionDate)
    && FieldEquals(lib.strings.equal, p.tnvedCode, q.tnvedCode)
    && FieldEquals(lib.strings.equal, p.uitCode, q.uitCode)
    && FieldEquals(lib.strings.equal, p.uituCode, q.uituCode)
  }

  /** The per-field hashes Product.hashCode() folds, in declaration order. */
  function ProductFieldHashes(lib: Library, p: Product): seq<int32> {
    [ FieldHash(lib.strings.hash, p.certificateDocument),
      FieldHash(lib.dates.hash, p.certificateDocumentDate),
      FieldHash(lib.strings.hash, p.certificateDocumentNumber),
      FieldHash(lib.strings.hash, p.ownerInn),
      FieldHash(lib.strings.hash, p.producerInn),
      FieldHash(lib.dates.hash, p.productionDate),
      FieldHash(lib.strings.hash, p.tnvedCode),
      FieldHash(lib.strings.hash, p.uitCode),
      FieldHash(lib.strings.hash, p.uituCode) ]
  }

  function ProductHash(lib: Library, p: Product): int32 {
    HashFold(ProductFieldHashes(lib, p))
  }

  function ProductOps(lib: Library): Ops<Product> {
    Ops((x, y) => ProductEquals(lib, x, Some(y)), x => ProductHash(lib, x))
  }

  lemma ProductLaws(lib: Library)
    requires LawfulLibrary(lib)
    ensures Lawful(ProductOps(lib))
  {
    FieldLaws(lib.strings);
    FieldLaws(lib.dates);
    forall x, y, z | ProductEquals(lib, x, Some(y)) && ProductEquals(lib, y, Some(z))
      ensures ProductEquals(lib, x, Some(z))
    {
    }
    forall x, y | ProductEquals(lib, x, Some(y))
      ensures ProductEquals(lib, y, Some(x)) && ProductHash(lib, x) == ProductHash(lib, y)
    {
      assert ProductFieldHashes(lib, x) == ProductFieldHashes(lib, y);
    }
  }

  /** Product.hashCode(), accumulating into `result` field by field. */
  method ProductHashCode(lib: Library, p: Product) returns (result: int32)
    ensures result == ProductHash(lib, p)
  {
    result := FieldHash(lib.strings.hash, p.certificateDocument);
    result := Mix(result, FieldHash(lib.dates.hash, p.certificateDocumentDate));
    result := Mix(result, FieldHash(lib.strings.hash, p.certificateDocumentNumber));
    result := Mix(result, FieldHash(lib.strings.hash, p.ownerInn));
    result := Mix(result, FieldHash(lib.strings.hash, p.producerInn));
    result := Mix(result, FieldHash(lib.dates.hash, p.productionDate));
    result := Mix(result, FieldHash(lib.strings.hash, p.tnvedCode));
    result := Mix(result, FieldHash(lib.strings.hash, p.uitCode));
    result := Mix(result, FieldHash(lib.strings.hash, p.uituCode));
    HashFoldOfNine(
      FieldHash(lib.strings.hash, p.certificateDocument),
      FieldHash(lib.dates.hash, p.certificateDocumentDate),
      FieldHash(lib.strings.hash, p.certificateDocumentNumber),
      FieldHash(lib.strings.hash, p.ownerInn),
      FieldHash(lib.strings.hash, p.producerInn),
      FieldHash(lib.dates.hash, p.productionDate),
      FieldHash(lib.strings.hash, p.tnvedCode),
      FieldHash(lib.strings.hash, p.uitCode),
      FieldHash(lib.strings.hash, p.uituCode));
  }

  // ---------------------------------------------------------------- List<Product>

  /** java.util.List.equals: same length, elements pairwise equal, a null element equal only to null. */
  function ListEquals(lib: Library, xs: seq<Option<Product>>, ys: seq<Option<Product>>): (r: bool)
    decreases |xs|
    ensures r ==> |xs| == |ys|
    ensures r ==> forall k :: 0 <= k < |xs| ==> (xs[k].None? <==> ys[k].None?)
  {
    if xs == [] then ys == []
    else ys != [] && FieldEquals(ProductOps(lib).equal, xs[0], ys[0]) && ListEquals(lib, xs[1..], ys[1..])
  }

  /** java.util.List.hashCode: `31 * h + (e == null ? 0 : e.hashCode())` over the elements, from 1. */
  function ListHash(lib: Library, xs: seq<Option<Product>>): (r: int32)
    decreases |xs|
    ensures r == HashFold([1] + ElementHashes(lib, xs))
  {
    if xs == [] then
      assert ([1] + ElementHashes(lib, xs))[..0] == [];
      1
    else
      ElementHashesInit(lib, xs);
      Mix(ListHash(lib, xs[..|xs| - 1]), FieldHash(ProductOps(lib).hash, xs[|xs| - 1]))
  }

  /** The hash of each element of a list, `0` for a null element. */
  function ElementHashes(lib: Library, xs: seq<Option<Product>>): (hs: seq<int32>)
    ensures |hs| == |xs|
    ensures forall k :: 0 <= k < |xs| ==> hs[k] == FieldHash(ProductOps(lib).hash, xs[k])
  {
    seq(|xs|, k requires 0 <= k < |xs| => FieldHash(ProductOps(lib).hash, xs[k]))
  }

  function ListOps(lib: Library): Ops<seq<Option<Product>>> {
    Ops((xs, ys) => ListEquals(lib, xs, ys), xs => ListHash(lib, xs))
  }

  lemma {:induction false} ListEqualsPointwise(lib: Library, xs: seq<Option<Product>>, ys: seq<Option<Product>>)
    ensures ListEquals(lib, xs, ys) <==>
      |xs| == |ys| && forall k :: 0 <= k < |xs| ==> FieldEquals(ProductOps(lib).equal, xs[k], ys[k])
    decreases |xs|
  {
    if xs != [] && ys != [] {
      ListEqualsPointwise(lib, xs[1..], ys[1..]);
      if |xs| == |ys| && forall k :: 0 <= k < |xs| ==> FieldEquals(ProductOps(lib).equal, xs[k], ys[k]) {
        forall k | 0 <= k < |xs| - 1
          ensures FieldEquals(ProductOps(lib).equal, xs[1..][k], ys[1..][k])
        {
          assert xs[1..][k] == xs[k + 1] && ys[1..][k] == ys[k + 1];
        }
      }
    }
  }

  lemma {:induction false} ListHashPointwise(lib: Library, xs: seq<Option<Product>>, ys: seq<Option<Product>>)
    requires |xs| == |ys|
    requires forall k :: 0 <= k < |xs| ==> FieldHash(ProductOps(lib).hash, xs[k]) == FieldHash(ProductOps(lib).hash, ys[k])
    ensures ListHash(lib, xs) == ListHash(lib, ys)
    decreases |xs|
  {
    if xs != [] {
      ListHashPointwise(lib, xs[..|xs| - 1], ys[..|ys| - 1]);
    }
  }

  lemma ListLaws(lib: Library)
    requires LawfulLibrary(lib)
    ensures Lawful(ListOps(lib))
  {
    ProductLaws(lib);
    FieldLaws(ProductOps(lib));
    var eq := ProductOps(lib).equal;
    forall xs: seq<Option<Product>>
      ensures ListEquals(lib, xs, xs)
    {
      ListEqualsPointwise(lib, xs, xs);
    }
    forall xs: seq<Option<Product>>, ys: seq<Option<Product>> | ListEquals(lib, xs, ys)
      ensures ListEquals(lib, ys, xs) && ListHash(lib, xs) == ListHash(lib, ys)
    {
      ListEqualsPointwise(lib, xs, ys);
      ListEqualsPointwise(lib, ys, xs);
      assert forall k :: 0 <= k < |xs| ==> FieldEquals(eq, xs[k], ys[k]);
      ListHashPointwise(lib, xs, ys);
    }
    forall xs: seq<Option<Product>>, ys: seq<Option<Product>>, zs: seq<Option<Product>>
      | ListEquals(lib, xs, ys) && ListEquals(lib, ys, zs)
      ensures ListEquals(lib, xs, zs)
    {
      ListEqualsPointwise(lib, xs, ys);
      ListEqualsPointwise(lib, ys, zs);
      ListEqualsPointwise(lib, xs, zs);
      assert forall k :: 0 <= k < |xs| ==> FieldEquals(eq, xs[k], ys[k]) && FieldEquals(eq, ys[k], zs[k]);
    }
  }

  lemma ElementHashesInit(lib: Library, xs: seq<Option<Product>>)
    requires xs != []
    ensures var hs := [1] + ElementHashes(lib, xs);
      && hs[..|xs|] == [1] + ElementHashes(lib, xs[..|xs| - 1])
      && hs[|xs|] == FieldHash(ProductOps(lib).hash, xs[|xs| - 1])
  {
    assert ([1] + ElementHashes(lib, xs))[..|xs|] == [1] + ElementHashes(lib, xs[..|xs| - 1]);
  }

  // ---------------------------------------------------------------- Document

  /** ProductMadeInRussiaToSendInSalesDocument.equals(o) */
  function DocumentEquals(lib: Library, d: Document, o: Option<Document>): (r: bool)
    ensures o.None? ==> !r
    ensures r ==>
      && (d.description.None? <==> o.value.description.None?)
      && (d.documentId.None? <==> o.value.documentId.None?)
      && (d.documentStatus.None? <==> o.value.documentStatus.None?)
      && (d.documentType.None? <==> o.value.documentType.None?)
      && (d.importRequest.None? <==> o.value.importRequest.None?)
      && (d.ownerInn.None? <==> o.value.ownerInn.None?)
      && (d.participantInn.None? <==> o.value.participantInn.None?)
      && (d.producerInn.None? <==> o.value.producerInn.None?)
      && (d.productionDate.None? <==> o.value.productionDate.None?)
      && (d.productionType.None? <==> o.value.productionType.None?)
      && (d.products.None? <==> o.value.products.None?)
      && (d.regDate.None? <==> o.value.regDate.None?)
      && (d.regNumber.None? <==> o.value.regNumber.None?)
  {
    o.Some? &&
    var e := o.value;
    && FieldEquals(DescriptionOps(lib).equal, d.description, e.description)
    && FieldEquals(lib.strings.equal, d.documentId, e.documentId)
    && FieldEquals(lib.strings.equal, d.documentStatus, e.documentStatus)
    && FieldEquals(lib.strings.equal, d.documentType, e.documentType)
    && FieldEquals(lib.booleans.equal, d.importRequest, e.importRequest)
    && FieldEquals(lib.strings.equal, d.ownerInn, e.ownerInn)
    && FieldEquals(lib.strings.equal, d.participantInn, e.participantInn)
    && FieldEquals(lib.strings.equal, d.producerInn, e.producerInn)
    && FieldEquals(lib.dates.equal, d.productionDate, e.productionDate)
    && FieldEquals(lib.strings.equal, d.productionType, e.productionType)
    && FieldEquals(ListOps(lib).equal, d.products, e.products)
    && FieldEquals(lib.dates.equal, d.regDate, e.regDate)
    && FieldEquals(lib.strings.equal, d.regNumber, e.regNumber)
  }

  /** The per-field hashes the document's hashCode() folds, in declaration order. */
  function DocumentFieldHashes(lib: Library, d: Document): seq<int32> {
    [ FieldHash(DescriptionOps(lib).hash, d.description),
      FieldHash(lib.strings.hash, d.documentId),
      FieldHash(lib.strings.hash, d.documentStatus),
      FieldHash(lib.strings.hash, d.documentType),
      FieldHash(lib.booleans.hash, d.importRequest),
      FieldHash(lib.strings.hash, d.ownerInn),
      FieldHash(lib.strings.hash, d.participantInn),
      FieldHash(lib.strings.hash, d.producerInn),
      FieldHash(lib.dates.hash, d.productionDate),
      FieldHash(lib.strings.hash, d.productionType),
      FieldHash(ListOps(lib).hash, d.products),
      FieldHash(lib.dates.hash, d.regDate),
      FieldHash(lib.strings.hash, d.regNumber) ]
  }

  function DocumentHash(lib: Library, d: Document): int32 {
    HashFold(DocumentFieldHashes(lib, d))
  }

  function DocumentOps(lib: Library): Ops<Document> {
    Ops((x, y) => DocumentEquals(lib, x, Some(y)), x => DocumentHash(lib, x))
  }

  /** ProductMadeInRussiaToSendInSalesDocument.hashCode(), accumulating into `result` field by field. */
  method DocumentHashCode(lib: Library, d: Document) returns (result: int32)
    ensures result == DocumentHash(lib, d)
  {
    result := FieldHash(DescriptionOps(lib).hash, d.description);
    result := Mix(result, FieldHash(lib.strings.hash, d.documentId));
    result := Mix(result, FieldHash(lib.strings.hash, d.documentStatus));
    result := Mix(result, FieldHash(lib.strings.hash, d.documentType));
    result := Mix(result, FieldHash(lib.booleans.hash, d.importRequest));
    result := Mix(result, FieldHash(lib.strings.hash, d.ownerInn));
    result := Mix(result, FieldHash(lib.strings.hash, d.participantInn));
    result := Mix(result, FieldHash(lib.strings.hash, d.producerInn));
    result := Mix(result, FieldHash(lib.dates.hash, d.productionDate));
    result := Mix(result, FieldHash(lib.strings.hash, d.productionType));
    result := Mix(result, FieldHash(ListOps(lib).hash, d.products));
    result := Mix(result, FieldHash(lib.dates.hash, d.regDate));
    result := Mix(result, FieldHash(lib.strings.hash, d.regNumber));
    HashFoldOfThirteen(
      FieldHash(DescriptionOps(lib).hash, d.description),
      FieldHash(lib.strings.hash, d.documentId),
      FieldHash(lib.strings.hash, d.documentStatus),
      FieldHash(lib.strings.hash, d.documentType),
      FieldHash(lib.booleans.hash, d.importRequest),
      FieldHash(lib.strings.hash, d.ownerInn),
      FieldHash(lib.strings.hash, d.participantInn),
      FieldHash(lib.strings.hash, d.producerInn),
      FieldHash(lib.dates.hash, d.productionDate),
      FieldHash(lib.strings.hash, d.productionType),
      FieldHash(ListOps(lib).hash, d.products),
      FieldHash(lib.dates.hash, d.regDate),
      FieldHash(lib.strings.hash, d.regNumber));
  }

  lemma DocumentLaws(lib: Library)
    requires LawfulLibrary(lib)
    ensures Lawful(DocumentOps(lib))
  {
    var ops := DocumentOps(lib);
    forall x
      ensures ops.equal(x, x)
    {
      DocumentReflexive(lib, x);
    }
    forall x, y, z | ops.equal(x, y) && ops.equal(y, z)
      ensures ops.equal(x, z)
    {
      DocumentTransitive(lib, x, y, z);
    }
    forall x, y | ops.equal(x, y)
      ensures ops.equal(y, x) && ops.hash(x) == ops.hash(y)
    {
      DocumentSymmetric(lib, x, y);
      DocumentHashAgrees(lib, x, y);
    }
  }

  lemma DocumentReflexive(lib: Library, x: Document)
    requires LawfulLibrary(lib)
    ensures DocumentEquals(lib, x, Some(x))
  {
    DescriptionLaws(lib);
    ListLaws(lib);
    FieldLaws(lib.strings);
    FieldLaws(lib.dates);
    FieldLaws(lib.booleans);
    FieldLaws(DescriptionOps(lib));
    FieldLaws(ListOps(lib));
  }

  lemma DocumentTransitive(lib: Library, x: Document, y: Document, z: Document)
    requires LawfulLibrary(lib)
    requires DocumentEquals(lib, x, Some(y)) && DocumentEquals(lib, y, Some(z))
    ensures DocumentEquals(lib, x, Some(z))
  {
    DescriptionLaws(lib);
    ListLaws(lib);
    FieldLaws(lib.strings);
    FieldLaws(lib.dates);
    FieldLaws(lib.booleans);
    FieldLaws(DescriptionOps(lib));
    FieldLaws(ListOps(lib));
  }

  lemma DocumentSymmetric(lib: Library, x: Document, y: Document)
    requires LawfulLibrary(lib)
    requires DocumentEquals(lib, x, Some(y))
    ensures DocumentEquals(lib, y, Some(x))
  {
    DescriptionLaws(lib);
    ListLaws(lib);
    FieldLaws(lib.strings);
    FieldLaws(lib.dates);
    FieldLaws(lib.booleans);
    FieldLaws(DescriptionOps(lib));
    FieldLaws(ListOps(lib));
  }

  /** Equal documents fold the same field hashes. */
  lemma DocumentHashAgrees(lib: Library, x: Document, y: Document)
    requires LawfulLibrary(lib)
    requires DocumentEquals(lib, x, Some(y))
    ensures DocumentHash(lib, x) == DocumentHash(lib, y)
  {
    DescriptionLaws(lib);
    ListLaws(lib);
    FieldLaws(lib.strings);
    FieldLaws(lib.dates);
    FieldLaws(lib.booleans);
    FieldLaws(DescriptionOps(lib));
    FieldLaws(ListOps(lib));
    assert DocumentFieldHashes(lib, x) == DocumentFieldHashes(lib, y);
  }

  /**
   * The three equals methods are never true of a null argument, and when the library's
   * operations keep the general contract, so do they: reflexive, symmetric, transitive,
   * and equal objects have equal hash codes.
   */
  lemma EqualsContract(lib: Library)
    requires LawfulLibrary(lib)
    ensures forall d :: !DescriptionEquals(lib, d, None)
    ensures forall p :: !ProductEquals(lib, p, None)
    ensures forall d :: !DocumentEquals(lib, d, None)
    ensures Lawful(DescriptionOps(lib))
    ensures Lawful(ProductOps(lib))
    ensures Lawful(DocumentOps(lib))
  {
    DescriptionLaws(lib);
    ProductLaws(lib);
    DocumentLaws(lib);
  }

  /**
   * When String, LocalDate and Boolean compare by value, the document's equals holds
   * exactly between documents with the same field values.
   */
  lemma EqualsIsValueEquality(lib: Library, a: Document, b: Document)
    requires ValueLibrary(lib)
    ensures DocumentEquals(lib, a, Some(b)) <==> a == b
  {
    FieldValueEquality(lib.strings);
    FieldValueEquality(lib.dates);
    FieldValueEquality(lib.booleans);
    assert IsValueEquality(DescriptionOps(lib));
    assert IsValueEquality(ProductOps(lib));
    FieldValueEquality(DescriptionOps(lib));
    FieldValueEquality(ProductOps(lib));
    forall xs: seq<Option<Product>>, ys: seq<Option<Product>>
      ensures ListEquals(lib, xs, ys) <==> xs == ys
    {
      ListEqualsPointwise(lib, xs, ys);
      assert (|xs| == |ys| && forall k :: 0 <= k < |xs| ==> xs[k] == ys[k]) ==> xs == ys;
    }
    assert IsValueEquality(ListOps(lib));
    FieldValueEquality(ListOps(lib));
  }
}
