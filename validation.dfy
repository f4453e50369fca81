/**
 * Client-side validation of a "goods introduction" document before it is
 * sent: every violated rule adds one message, and validation fails exactly
 * when there is at least one message.
 */
module Validation {
  import opened Wrappers
  import opened JavaString

  datatype Description = Description(participantInn: Option<string>)

  /** One element of the document's `products` list; every field may be absent (null). */
  datatype Product = Product(
    certificateDocument: Option<string>,
    certificateDocumentDate: Option<string>,
    certificateDocumentNumber: Option<string>,
    ownerInn: Option<string>,
    producerInn: Option<string>,
    productionDate: Option<string>,
    tnvedCode: Option<string>,
    uitCode: Option<string>,
    uituCode: Option<string>)

  /** The document; `products` is a list that may itself hold null elements. */
  datatype Document = Document(
    description: Option<Description>,
    docId: Option<string>,
    docStatus: Option<string>,
    docType: Option<string>,
    importRequest: Option<bool>,
    ownerInn: Option<string>,
    participantInn: Option<string>,
    producerInn: Option<string>,
    productionDate: Option<string>,
    productionType: Option<string>,
    products: Option<seq<Option<Product>>>)

  /** `isBlank(s)`: null, or made only of characters that `trim()` strips (those at most U+0020). */
  predicate IsBlank(s: Option<string>) {
    s.None? || forall i :: 0 <= i < |s.value| ==> IsTrimmable(s.value[i])
  }

  /** `isBlank` as the source writes it: null, or `trim().isEmpty()`. */
  lemma BlankIffTrimEmpty(s: Option<string>)
    ensures IsBlank(s) <==> s.None? || Trim(s.value) == []
  {
    if s.Some? {
      TrimEmptyIffAllTrimmable(s.value);
    }
  }

  /** The regular expression `\d{4}-\d{2}-\d{2}`. */
  const DatePattern: seq<Atom> :=
    [Atom(Digit, 4), Atom(Literal('-'), 1), Atom(Digit, 2), Atom(Literal('-'), 1), Atom(Digit, 2)]

  /** `isValidDate(s)`: `s.matches("\\d{4}-\\d{2}-\\d{2}")`. */
  predicate IsValidDate(s: string) {
    Matches(s, DatePattern)
  }

  predicate IsDecimalDigit(c: char) {
    '0' <= c <= '9'
  }

  /** The shape `YYYY-MM-DD` character by character: ten characters, dashes at 4 and 7, digits elsewhere. */
  predicate HasDateShape(s: string) {
    && |s| == 10
    && s[4] == '-' && s[7] == '-'
    && forall i :: 0 <= i < 10 && i != 4 && i != 7 ==> IsDecimalDigit(s[i])
  }

  lemma ValidDateIffShape(s: string)
    ensures IsValidDate(s) <==> HasDateShape(s)
  {
    var p := DatePattern;
    assert p[1..] == [Atom(Literal('-'), 1), Atom(Digit, 2), Atom(Literal('-'), 1), Atom(Digit, 2)];
    assert p[1..][1..] == [Atom(Digit, 2), Atom(Literal('-'), 1), Atom(Digit, 2)];
    assert p[1..][1..][1..] == [Atom(Literal('-'), 1), Atom(Digit, 2)];
    assert p[1..][1..][1..][1..] == [Atom(Digit, 2)];
    assert p[1..][1..][1..][1..][1..] == [];
    if |s| >= 10 {
      assert s[4..][1..] == s[5..] && s[5..][2..] == s[7..] && s[7..][1..] == s[8..] && s[8..][2..] == s[10..];
      assert forall i :: 0 <= i < 2 ==> s[5..][i] == s[5 + i] && s[8..][i] == s[8 + i];
    }
  }

  /** A date field that is present and not blank must be a date. */
  predicate DateIfPresent(s: Option<string>) {
    IsBlank(s) || IsValidDate(s.value)
  }

  /** The rules for one element of `products`. */
  predicate ProductConforms(p: Option<Product>) {
    && p.Some?
    && !IsBlank(p.value.tnvedCode)
    && (!IsBlank(p.value.uitCode) || !IsBlank(p.value.uituCode))
    && DateIfPresent(p.value.productionDate)
    && DateIfPresent(p.value.certificateDocumentDate)
  }

  /** The rules for the document. */
  predicate DocumentConforms(doc: Option<Document>) {
    && doc.Some?
    && var d := doc.value;
    && !IsBlank(d.ownerInn)
    && !IsBlank(d.participantInn)
    && !IsBlank(d.producerInn)
    && !IsBlank(d.productionDate) && IsValidDate(d.productionDate.value)
    && !IsBlank(d.productionType)
    && d.products.Some? && |d.products.value| > 0
    && forall i :: 0 <= i < |d.products.value| ==> ProductConforms(d.products.value[i])
  }

  /**
   * All the rules: a product group, a signature that is present and decodes
   * (`decodes` stands for `Base64.getDecoder().decode` not throwing), and a
   * conforming document.
   */
  predicate Conforms(doc: Option<Document>, signature: Option<string>, productGroup: Option<string>, decodes: string -> bool) {
    && !IsBlank(productGroup)
    && !IsBlank(signature) && decodes(signature.value)
    && DocumentConforms(doc)
  }

  /** One violated rule; products are identified by their index in the list. */
  datatype Violation =
    | ProductGroupMissing
    | SignatureMissing
    | SignatureNotBase64
    | DocumentMissing
    | OwnerInnMissing
    | ParticipantInnMissing
    | ProducerInnMissing
    | ProductionDateMissing
    | ProductionDateMalformed
    | ProductionTypeMissing
    | ProductsEmpty
    | ProductNull(index: nat)
    | TnvedCodeMissing(index: nat)
    | UitCodeMissing(index: nat)
    | ProductDateMalformed(index: nat)
    | CertificateDateMalformed(index: nat)

  /** The text `validateInputs` records for a violation. */
  function Message(v: Violation): string {
    match v
    case ProductGroupMissing => "productGroup (query param 'pg') is required"
    case SignatureMissing => "signature (detached Base64) is required"
    case SignatureNotBase64 => "signature must be valid Base64"
    case DocumentMissing => "document is required"
    case OwnerInnMissing => "document.owner_inn is required"
    case ParticipantInnMissing => "document.participant_inn is required"
    case ProducerInnMissing => "document.producer_inn is required"
    case ProductionDateMissing => "document.production_date is required"
    case ProductionDateMalformed => "document.production_date must be YYYY-MM-DD"
    case ProductionTypeMissing => "document.production_type is required"
    case ProductsEmpty => "document.products must not be empty"
    case ProductNull(i) => "document.products[" + Decimal(i) + "] must not be null"
    case TnvedCodeMissing(i) => "products[" + Decimal(i) + "].tnved_code is required"
    case UitCodeMissing(i) => "products[" + Decimal(i) + "]: either uit_code or uitu_code is required"
    case ProductDateMalformed(i) => "products[" + Decimal(i) + "].production_date must be YYYY-MM-DD when present"
    case CertificateDateMalformed(i) => "products[" + Decimal(i) + "].certificate_document_date must be YYYY-MM-DD when present"
  }

  /** The messages for `vs`, in order. */
  function Messages(vs: seq<Violation>): (r: seq<string>)
    ensures |r| == |vs|
    decreases |vs|
  {
    if vs == [] then [] else Messages(vs[..|vs| - 1]) + [Message(vs[|vs| - 1])]
  }

  /** `errors` holds, position by position, the message of each violation in `found`. */
  ghost predicate Describes(errors: seq<string>, found: seq<Violation>) {
    |errors| == |found| && forall k :: 0 <= k < |found| ==> errors[k] == Message(found[k])
  }

  lemma {:induction false} DescribesMessages(errors: seq<string>, found: seq<Violation>)
    requires Describes(errors, found)
    ensures errors == Messages(found)
    decreases |found|
  {
    if found != [] {
      var n := |found| - 1;
      DescribesMessages(errors[..n], found[..n]);
    }
  }

  /** `if (c) errors.add(v)`. */
  function AddIf(vs: seq<Violation>, c: bool, v: Violation): (r: seq<Violation>)
    ensures |r| == |vs| + (if c then 1 else 0)
  {
    if c then vs + [v] else vs
  }

  /** The checks on the product at index `i`, appending to `vs` in the order they run. */
  function ProductChecks(vs: seq<Violation>, i: nat, p: Option<Product>): (r: seq<Violation>)
    ensures |r| >= |vs|
    ensures p.None? ==> r == vs + [ProductNull(i)]
  {
    if p.None? then vs + [ProductNull(i)]
    else
      var q := p.value;
      var vs1 := AddIf(vs, IsBlank(q.tnvedCode), TnvedCodeMissing(i));
      var vs2 := AddIf(vs1, IsBlank(q.uitCode) && IsBlank(q.uituCode), UitCodeMissing(i));
      var vs3 := AddIf(vs2, !IsBlank(q.productionDate) && !IsValidDate(q.productionDate.value), ProductDateMalformed(i));
      AddIf(vs3, !IsBlank(q.certificateDocumentDate) && !IsValidDate(q.certificateDocumentDate.value), CertificateDateMalformed(i))
  }

  /** A product adds no violation exactly when it conforms. */
  lemma ProductChecksPassIff(vs: seq<Violation>, i: nat, p: Option<Product>)
    ensures |ProductChecks(vs, i, p)| == |vs| <==> ProductConforms(p)
  {
  }

  /** The checks on every product of `ps`, in list order, appending to `vs`. */
  function ProductListChecks(vs: seq<Violation>, ps: seq<Option<Product>>): (r: seq<Violation>)
    ensures |r| >= |vs|
    decreases |ps|
  {
    if ps == [] then vs else ProductChecks(ProductListChecks(vs, ps[..|ps| - 1]), |ps| - 1, ps[|ps| - 1])
  }

  lemma {:induction false} ProductListChecksPassIff(vs: seq<Violation>, ps: seq<Option<Product>>)
    ensures |ProductListChecks(vs, ps)| == |vs| <==> forall i :: 0 <= i < |ps| ==> ProductConforms(ps[i])
    decreases |ps|
  {
    if ps != [] {
      var front := ps[..|ps| - 1];
      ProductListChecksPassIff(vs, front);
      ProductChecksPassIff(ProductListChecks(vs, front), |ps| - 1, ps[|ps| - 1]);
      assert forall i :: 0 <= i < |front| ==> front[i] == ps[i];
    }
  }

  /** The violations that name a product by its index. */
  predicate AboutProduct(v: Violation) {
    v.ProductNull? || v.TnvedCodeMissing? || v.UitCodeMissing? || v.ProductDateMalformed? || v.CertificateDateMalformed?
  }

  /** The checks on one product append the same violations whatever was found before. */
  lemma ProductChecksAppend(vs: seq<Violation>, i: nat, p: Option<Product>, v: Violation)
    ensures v in ProductChecks(vs, i, p) <==> v in vs || v in ProductChecks([], i, p)
  {
    if p.Some? {
      var q := p.value;
      var c1, c2 := IsBlank(q.tnvedCode), IsBlank(q.uitCode) && IsBlank(q.uituCode);
      var c3 := !IsBlank(q.productionDate) && !IsValidDate(q.productionDate.value);
      var c4 := !IsBlank(q.certificateDocumentDate) && !IsValidDate(q.certificateDocumentDate.value);
      AddIf4Member(vs, c1, c2, c3, c4, i, v);
      AddIf4Member([], c1, c2, c3, c4, i, v);
    }
  }

  /** The checks on one product add only violations naming that product. */
  lemma ProductChecksNameIt(i: nat, p: Option<Product>, v: Violation)
    requires v in ProductChecks([], i, p)
    ensures AboutProduct(v) && v.index == i
  {
    if p.Some? {
      var q := p.value;
      var c1, c2 := IsBlank(q.tnvedCode), IsBlank(q.uitCode) && IsBlank(q.uituCode);
      var c3 := !IsBlank(q.productionDate) && !IsValidDate(q.productionDate.value);
      var c4 := !IsBlank(q.certificateDocumentDate) && !IsValidDate(q.certificateDocumentDate.value);
      AddIf4Member([], c1, c2, c3, c4, i, v);
    }
  }

  lemma AddIf4Member(vs: seq<Violation>, c1: bool, c2: bool, c3: bool, c4: bool, i: nat, v: Violation)
    ensures var r := AddIf(AddIf(AddIf(AddIf(vs, c1, TnvedCodeMissing(i)), c2, UitCodeMissing(i)), c3, ProductDateMalformed(i)), c4, CertificateDateMalformed(i));
      v in r <==>
        (v in vs || (c1 && v == TnvedCodeMissing(i)) || (c2 && v == UitCodeMissing(i))
         || (c3 && v == ProductDateMalformed(i)) || (c4 && v == CertificateDateMalformed(i)))
  {
  }

  /**
   * The loop over `products` reports, for each index, exactly that product's
   * own violations: a violation naming a product is in the result iff it was
   * already there or the product at its index has it.
   */
  lemma {:induction false} ProductListChecksMembers(vs: seq<Violation>, ps: seq<Option<Product>>, v: Violation)
    requires AboutProduct(v)
    ensures v in ProductListChecks(vs, ps) <==>
      v in vs || (v.index < |ps| && v in ProductChecks([], v.index, ps[v.index]))
    decreases |ps|
  {
    if ps != [] {
      var n := |ps| - 1;
      var front := ps[..n];
      ProductListChecksMembers(vs, front, v);
      ProductChecksAppend(ProductListChecks(vs, front), n, ps[n], v);
      if v in ProductChecks([], n, ps[n]) {
        ProductChecksNameIt(n, ps[n], v);
      }
      if v.index < n {
        assert front[v.index] == ps[v.index];
      }
    }
  }

  /** The checks on the document fields other than `products`. */
  function FieldChecks(vs: seq<Violation>, d: Document): (r: seq<Violation>)
    ensures |r| >= |vs|
  {
    var vs1 := AddIf(vs, IsBlank(d.ownerInn), OwnerInnMissing);
    var vs2 := AddIf(vs1, IsBlank(d.participantInn), ParticipantInnMissing);
    var vs3 := AddIf(vs2, IsBlank(d.producerInn), ProducerInnMissing);
    var vs4 := if IsBlank(d.productionDate) then vs3 + [ProductionDateMissing]
               else AddIf(vs3, !IsValidDate(d.productionDate.value), ProductionDateMalformed);
    AddIf(vs4, IsBlank(d.productionType), ProductionTypeMissing)
  }

  /** The checks on the document, appending to `vs`. */
  function DocumentChecks(vs: seq<Violation>, doc: Option<Document>): (r: seq<Violation>)
    ensures |r| >= |vs|
  {
    if doc.None? then vs + [DocumentMissing]
    else
      var d := doc.value;
      var fs := FieldChecks(vs, d);
      if d.products.None? || d.products.value == [] then fs + [ProductsEmpty]
      else ProductListChecks(fs, d.products.value)
  }

  /** The checks on the product group and the signature, appending to `vs`. */
  function HeaderChecks(vs: seq<Violation>, signature: Option<string>, productGroup: Option<string>, decodes: string -> bool): (r: seq<Violation>)
    ensures |r| >= |vs|
  {
    var vs1 := AddIf(vs, IsBlank(productGroup), ProductGroupMissing);
    if IsBlank(signature) then vs1 + [SignatureMissing]
    else AddIf(vs1, !decodes(signature.value), SignatureNotBase64)
  }

  /** All violations `validateInputs` finds, in the order it finds them. */
  function Violations(doc: Option<Document>, signature: Option<string>, productGroup: Option<string>, decodes: string -> bool): seq<Violation> {
    DocumentChecks(HeaderChecks([], signature, productGroup, decodes), doc)
  }

  /** No violation is found exactly when every rule holds. */
  lemma ViolationsEmptyIffConforms(doc: Option<Document>, signature: Option<string>, productGroup: Option<string>, decodes: string -> bool)
    ensures Violations(doc, signature, productGroup, decodes) == [] <==> Conforms(doc, signature, productGroup, decodes)
  {
    var vs2 := HeaderChecks([], signature, productGroup, decodes);
    if doc.Some? {
      var d := doc.value;
      var fs := FieldChecks(vs2, d);
      if d.products.Some? && d.products.value != [] {
        ProductListChecksPassIff(fs, d.products.value);
      }
    }
  }

  /** The exception text for a non-empty list of messages. */
  function FailureText(errors: seq<string>): string {
    "Validation failed: " + Join("; ", errors)
  }

  /** Each further message extends the text by "; " and the message itself. */
  lemma FailureTextAppend(errors: seq<string>, m: string)
    requires errors != []
    ensures FailureText(errors + [m]) == FailureText(errors) + "; " + m
  {
    JoinAppend("; ", errors, [m]);
  }

  /**
   * `validateInputs`: runs every check, collecting messages, and fails with
   * "Validation failed: " and the messages joined by "; " when there is any.
   */
  method ValidateInputs(doc: Option<Document>, signature: Option<string>, productGroup: Option<string>, decodes: string -> bool)
    returns (failure: Option<string>)
    ensures failure.None? <==> Conforms(doc, signature, productGroup, decodes)
    ensures failure.Some? ==>
      failure.value == FailureText(Messages(Violations(doc, signature, productGroup, decodes)))
  {
    var errors: seq<string> := [];
    ghost var found: seq<Violation> := [];
    errors, found := CheckHeader(errors, found, signature, productGroup, decodes);
    errors, found := CheckDocument(errors, found, doc);
    ghost var vs := Violations(doc, signature, productGroup, decodes);
    assert found == vs;
    ViolationsEmptyIffConforms(doc, signature, productGroup, decodes);
    DescribesMessages(errors, found);
    assert errors == Messages(vs);
    if errors != [] {
      failure := Some(FailureText(errors));
    } else {
      failure := None;
    }
  }

  /** The checks on the product group and the signature, as `validateInputs` runs them. */
  method CheckHeader(errors: seq<string>, ghost found: seq<Violation>, signature: Option<string>, productGroup: Option<string>, decodes: string -> bool)
    returns (errors': seq<string>, ghost found': seq<Violation>)
    requires Describes(errors, found)
    ensures found' == HeaderChecks(found, signature, productGroup, decodes) && Describes(errors', found')
  {
    errors', found' := errors, found;
    if IsBlank(productGroup) {
      errors', found' := Add(errors', found', ProductGroupMissing);
    }
    if IsBlank(signature) {
      errors', found' := Add(errors', found', SignatureMissing);
    } else if !decodes(signature.value) {
      errors', found' := Add(errors', found', SignatureNotBase64);
    }
  }

  /** The checks on the document and on each element of its `products`, as `validateInputs` runs them. */
  method CheckDocument(errors: seq<string>, ghost found: seq<Violation>, doc: Option<Document>)
    returns (errors': seq<string>, ghost found': seq<Violation>)
    requires Describes(errors, found)
    ensures found' == DocumentChecks(found, doc) && Describes(errors', found')
  {
    errors', found' := errors, found;
    if doc.None? {
      errors', found' := Add(errors', found', DocumentMissing);
      return;
    }
    var d := doc.value;
    errors', found' := CheckFields(errors', found', d);
    if d.products.None? || d.products.value == [] {
      errors', found' := Add(errors', found', ProductsEmpty);
      return;
    }
    var ps := d.products.value;
    ghost var fields := found';
    var i := 0;
    while i < |ps|
      invariant 0 <= i <= |ps|
      invariant Describes(errors', found')
      invariant found' == ProductListChecks(fields, ps[..i])
    {
      assert ps[..i + 1][..i] == ps[..i];
      errors', found' := CheckProduct(errors', found', i, ps[i]);
      i := i + 1;
    }
    assert ps[..|ps|] == ps;
  }

  /** The checks on the document fields other than `products`, as `validateInputs` runs them. */
  method CheckFields(errors: seq<string>, ghost found: seq<Violation>, d: Document)
    returns (errors': seq<string>, ghost found': seq<Violation>)
    requires Describes(errors, found)
    ensures found' == FieldChecks(found, d) && Describes(errors', found')
  {
    errors', found' := errors, found;
    if IsBlank(d.ownerInn) {
      errors', found' := Add(errors', found', OwnerInnMissing);
    }
    if IsBlank(d.participantInn) {
      errors', found' := Add(errors', found', ParticipantInnMissing);
    }
    if IsBlank(d.producerInn) {
      errors', found' := Add(errors', found', ProducerInnMissing);
    }
    if IsBlank(d.productionDate) {
      errors', found' := Add(errors', found', ProductionDateMissing);
    } else if !IsValidDate(d.productionDate.value) {
      errors', found' := Add(errors', found', ProductionDateMalformed);
    }
    if IsBlank(d.productionType) {
      errors', found' := Add(errors', found', ProductionTypeMissing);
    }
  }

  /** One pass of the loop over `products`: a null element is reported and skipped. */
  method CheckProduct(errors: seq<string>, ghost found: seq<Violation>, i: nat, p: Option<Product>)
    returns (errors': seq<string>, ghost found': seq<Violation>)
    requires Describes(errors, found)
    ensures found' == ProductChecks(found, i, p) && Describes(errors', found')
  {
    errors', found' := errors, found;
    if p.None? {
      errors', found' := Add(errors', found', ProductNull(i));
      return;
    }
    var q := p.value;
    if IsBlank(q.tnvedCode) {
      errors', found' := Add(errors', found', TnvedCodeMissing(i));
    }
    if IsBlank(q.uitCode) && IsBlank(q.uituCode) {
      errors', found' := Add(errors', found', UitCodeMissing(i));
    }
    if !IsBlank(q.productionDate) && !IsValidDate(q.productionDate.value) {
      errors', found' := Add(errors', found', ProductDateMalformed(i));
    }
    if !IsBlank(q.certificateDocumentDate) && !IsValidDate(q.certificateDocumentDate.value) {
      errors', found' := Add(errors', found', CertificateDateMalformed(i));
    }
  }

  /** `errors.add(...)`: appends the message of `v`, keeping the ghost record of violations in step. */
  method Add(errors: seq<string>, ghost found: seq<Violation>, v: Violation)
    returns (errors': seq<string>, ghost found': seq<Violation>)
    requires Describes(errors, found)
    ensures found' == found + [v] && Describes(errors', found')
  {
    errors' := errors + [Message(v)];
    found' := found + [v];
  }
}
