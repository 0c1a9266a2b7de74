/** The POST handler of the listings API: it checks the required fields,
    builds the new property document (slug, one-paragraph description,
    optional image reference) and hands it to the content store. */
module Listings {
  import opened Options
  import Slug
  import JsString
  import RichText

  /** The fields of the JSON body the handler reads; a field that is not
      there, or is null, is `None`. The price is taken as an integer. */
  datatype ListingBody = ListingBody(
    title: Option<string>,
    location: Option<string>,
    price: Option<int>,
    description: Option<string>,
    imageAssetId: Option<string>)

  datatype SlugField = SlugField(typ: string, current: string)

  datatype Reference = Reference(typ: string, ref: string)

  datatype ImageField = ImageField(typ: string, asset: Reference)

  /** The document handed to the content store. */
  datatype NewDoc = NewDoc(
    typ: string,
    title: string,
    slug: SlugField,
    location: string,
    price: int,
    description: seq<RichText.Block>,
    isPublished: bool,
    image: Option<ImageField>)

  datatype ResponseBody = Created(document: string) | Failure(error: string)

  datatype Response = Response(status: int, body: ResponseBody)

  /** What one request does: the response, and the document handed to the
      store, if any. */
  datatype Outcome = Outcome(response: Response, submitted: Option<NewDoc>)

  const MissingFields := "Missing required fields"
  const SaveFailed := "Failed to save listing"

  /** Title and location must be non-empty strings and the price a number
      other than 0: an absent field, the empty string and 0 are all falsy. */
  predicate HasRequiredFields(b: ListingBody)
  {
    Truthy(b.title) && Truthy(b.location) && b.price.Some? && b.price.value != 0
  }

  /** The description the form's plain text becomes: one block holding one
      span, neither with a key, style or marks. */
  function DescriptionBlocks(text: string): seq<RichText.Block>
  {
    [RichText.Block(None, "block", None, None,
                    Some([RichText.Child(None, "span", Some(text), None, map[])]), map[])]
  }

  /** `newDoc`, built once the required fields are known to be there. */
  function NewDocument(b: ListingBody): NewDoc
    requires HasRequiredFields(b)
  {
    NewDoc(
      "property",
      b.title.value,
      SlugField("slug", Slug.GenerateSlug(b.title.value)),
      b.location.value,
      b.price.value,
      DescriptionBlocks(StringOr(b.description, "")),
      true,
      if Truthy(b.imageAssetId) then Some(ImageField("image", Reference("reference", b.imageAssetId.value)))
      else None)
  }

  /** The handler. `body` is `None` when reading it throws: the request
      text is not JSON, or it is JSON `null`, whose fields cannot be read.
      Any other JSON value (a number, string, boolean or array) has no
      `title` and arrives as a body whose fields are all `None`. `create` is
      the content store, which answers with the stored document or fails. A
      thrown error becomes a 500. */
  function Post(body: Option<ListingBody>, create: NewDoc -> Option<string>): Outcome
  {
    if body.None? then Outcome(Response(500, Failure(SaveFailed)), None)
    else if !HasRequiredFields(body.value) then Outcome(Response(400, Failure(MissingFields)), None)
    else
      var doc := NewDocument(body.value);
      match create(doc)
      case Some(created) => Outcome(Response(200, Created(created)), Some(doc))
      case None => Outcome(Response(500, Failure(SaveFailed)), Some(doc))
  }

  // ---------------------------------------------------------------------
  // Properties of the handler

  /** A request is turned away with 400 exactly when its body is readable
      but a required field is missing or falsy, and then nothing reaches
      the store. */
  lemma RejectsMissingFields(body: Option<ListingBody>, create: NewDoc -> Option<string>)
    ensures Post(body, create).response.status == 400 <==> body.Some? && !HasRequiredFields(body.value)
    ensures Post(body, create).response.status == 400 ==>
              Post(body, create).response.body == Failure(MissingFields)
              && Post(body, create).submitted.None?
  {
  }

  /** An empty title, an empty location and a price of 0 are each enough to
      be turned away, whatever else the body holds. */
  lemma FalsyFieldsRejected(b: ListingBody, create: NewDoc -> Option<string>)
    requires b.title == Some("") || b.location == Some("") || b.price == Some(0)
    ensures Post(Some(b), create) == Outcome(Response(400, Failure(MissingFields)), None)
  {
  }

  /** A valid request hands the store exactly the document built from it,
      and answers 200 with what the store returned, or 500 when the store
      fails. */
  lemma ValidRequestSubmits(b: ListingBody, create: NewDoc -> Option<string>)
    requires HasRequiredFields(b)
    ensures Post(Some(b), create).submitted == Some(NewDocument(b))
    ensures create(NewDocument(b)).Some? ==>
              Post(Some(b), create).response == Response(200, Created(create(NewDocument(b)).value))
    ensures create(NewDocument(b)).None? ==>
              Post(Some(b), create).response == Response(500, Failure(SaveFailed))
  {
  }

  /** The status is always one of 200, 400 and 500, and 200 only when the
      store took a document. */
  lemma StatusCodes(body: Option<ListingBody>, create: NewDoc -> Option<string>)
    ensures Post(body, create).response.status in {200, 400, 500}
    ensures Post(body, create).response.status == 200 <==>
              Post(body, create).submitted.Some? && create(Post(body, create).submitted.value).Some?
  {
  }

  // ---------------------------------------------------------------------
  // Properties of the new document

  /** The document is always a published property whose title, location and
      price are the body's, and whose slug is the title's slug: lower-case
      letters, digits, `_` and `-` only, never longer than the title. */
  lemma DocumentFields(b: ListingBody)
    requires HasRequiredFields(b)
    ensures var d := NewDocument(b);
            && d.typ == "property" && d.isPublished
            && d.title == b.title.value && d.location == b.location.value && d.price == b.price.value
            && d.slug.typ == "slug" && d.slug.current == Slug.GenerateSlug(b.title.value)
            && Slug.IsSlug(d.slug.current) && JsString.NoSpace(d.slug.current)
            && |d.slug.current| <= |d.title|
  {
    Slug.SlugAlphabet(b.title.value);
    Slug.SlugLength(b.title.value);
  }

  /** The image field is there exactly when the body names an image asset,
      and then it refers to that asset. */
  lemma DocumentImage(b: ListingBody)
    requires HasRequiredFields(b)
    ensures NewDocument(b).image.Some? <==> Truthy(b.imageAssetId)
    ensures NewDocument(b).image.Some? ==>
              NewDocument(b).image.value == ImageField("image", Reference("reference", b.imageAssetId.value))
  {
  }

  /** The description is one block holding one span whose text is the
      body's description when that is a non-empty string, and "" otherwise. */
  lemma DocumentDescription(b: ListingBody)
    requires HasRequiredFields(b)
    ensures var d := NewDocument(b).description;
            && |d| == 1 && d[0].typ == "block"
            && d[0].children.Some? && |d[0].children.value| == 1
            && d[0].children.value[0].typ == "span"
            && d[0].children.value[0].text == Some(if Truthy(b.description) then b.description.value else "")
  {
  }

  /** When the stored description is opened for editing, the key
      normaliser keeps it as one paragraph of style "normal" holding one
      span with the same text and no marks, and it draws two keys from the
      supply: one for the block and one for the span. */
  lemma DescriptionOpensInEditor(b: ListingBody, next: nat)
    requires HasRequiredFields(b)
    ensures var (out, n) := RichText.EnsureKeys(Some(NewDocument(b).description), next);
            && n == next + 2
            && |out| == 1 && out[0].style == Some("normal") && out[0].markDefs == Some([])
            && out[0].key == Some(RichText.FreshKey(next))
            && out[0].children.Some? && |out[0].children.value| == 1
            && out[0].children.value[0]
               == RichText.Child(Some(RichText.FreshKey(next + 1)), "span",
                                 Some(StringOr(b.description, "")), Some([]), map[])
  {
    EditorDescription(StringOr(b.description, ""), next);
  }

  /** The key normaliser on a one-span description: the block gets the
      supply's next key and the default style and mark definitions, the
      span the key after that and no marks; its text is kept. */
  lemma EditorDescription(text: string, next: nat)
    ensures RichText.EnsureKeys(Some(DescriptionBlocks(text)), next)
            == ([RichText.Block(Some(RichText.FreshKey(next)), "block", Some("normal"), Some([]),
                                Some([RichText.Child(Some(RichText.FreshKey(next + 1)), "span",
                                                     Some(text), Some([]), map[])]), map[])],
                next + 2)
  {
    var span := RichText.Child(None, "span", Some(text), None, map[]);
    var keyed := RichText.Child(Some(RichText.FreshKey(next + 1)), "span", Some(text), Some([]), map[]);
    assert RichText.NormalizeChild(span, next + 1) == (keyed, next + 2);
    assert [span][0] == span && [span][1..] == [];
    assert RichText.NormalizeChildren([], next + 2) == ([], next + 2);
    assert [keyed] + [] == [keyed];
    assert RichText.NormalizeChildren([span], next + 1) == ([keyed], next + 2);
    var blocks := DescriptionBlocks(text);
    var block := RichText.Block(Some(RichText.FreshKey(next)), "block", Some("normal"), Some([]), Some([keyed]), map[]);
    assert RichText.NormalizeBlock(blocks[0], next) == (block, next + 2);
    assert blocks[1..] == [];
    assert RichText.NormalizeBlocks([], next + 2) == ([], next + 2);
    assert [block] + [] == [block];
    assert RichText.NormalizeBlocks(blocks, next) == ([block], next + 2);
  }

  /** A body with title "A", location "B" and price 100 creates the
      published property "A" at slug "a", without an image. */
  lemma SimpleListingExample(create: NewDoc -> Option<string>)
    ensures var b := ListingBody(Some("A"), Some("B"), Some(100), None, None);
            && HasRequiredFields(b)
            && Post(Some(b), create).submitted
               == Some(NewDoc("property", "A", SlugField("slug", "a"), "B", 100,
                              DescriptionBlocks(""), true, None))
  {
    Slug.SingleLetterExample();
  }

  // ---------------------------------------------------------------------
  // The request the add form sends

  /** What the property form posts, `{...formData, price: Number(price)}`:
      the title and location it holds, the price as a number (`None` when
      it is NaN, which JSON writes as null) and, under the name `image`,
      the uploaded image as a reference to the asset `imageRef`. */
  datatype FormData = FormData(
    title: string,
    location: string,
    price: Option<int>,
    imageRef: Option<string>)

  /** The route's reading of the form's request as the two are written:
      the route looks for `imageAssetId`, which the form never sends. */
  function FormBody(f: FormData): ListingBody
  {
    ListingBody(Some(f.title), Some(f.location), f.price, None, None)
  }

  /** As written, an image uploaded in the form never reaches the created
      document: whatever the form holds, the document handed to the store
      has no image. */
  lemma FormImageDropped(f: FormData, create: NewDoc -> Option<string>)
    ensures Post(Some(FormBody(f)), create).submitted.Some? ==>
              Post(Some(FormBody(f)), create).submitted.value.image.None?
  {
  }

  /** The concrete case: a valid form with the uploaded asset "image-a"
      creates a property without an image. */
  lemma FormImageDroppedExample(create: NewDoc -> Option<string>)
    ensures var f := FormData("A", "B", Some(100), Some("image-a"));
            && Post(Some(FormBody(f)), create).submitted.Some?
            && Post(Some(FormBody(f)), create).submitted.value.image.None?
  {
  }

  /** The evidently intended request: the form also sends the uploaded
      image's asset id as `imageAssetId`. */
  function FormBodyWithAsset(f: FormData): ListingBody
  {
    ListingBody(Some(f.title), Some(f.location), f.price, None, f.imageRef)
  }

  /** With the asset id sent, the created document has an image exactly
      when one was uploaded, and it refers to that asset. */
  lemma FormImageKept(f: FormData, create: NewDoc -> Option<string>)
    ensures var out := Post(Some(FormBodyWithAsset(f)), create);
            out.submitted.Some? ==>
              && (out.submitted.value.image.Some? <==> Truthy(f.imageRef))
              && (out.submitted.value.image.Some? ==>
                    out.submitted.value.image.value == ImageField("image", Reference("reference", f.imageRef.value)))
  {
  }
}
