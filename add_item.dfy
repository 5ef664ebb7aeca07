/** The add-item form of src/pages/AddItemPage.tsx (lines 32-90): the form
    state and its field update, the submit handler's validation order, the
    parsing of the comma-separated tag list, and the item it hands to the
    store. */
module AddItem {
  import opened Builtins
  import opened Store

  /** The signed-in user, as far as the form reads it. */
  datatype User = User(id: string, name: string)

  /** The form state; every field is text, `itemType` is the field named `type`. */
  datatype FormData = FormData(
    title: string,
    description: string,
    category: string,
    itemType: string,
    size: string,
    condition: string,
    tags: string,
    image: string)

  /** How a submission ends. */
  datatype SubmitOutcome =
    | MissingFields   // "Please fill in all required fields"
    | MissingImage    // "Please upload an image"
    | AddFailed       // the handler's catch: "Failed to add item"
    | Added           // "Item added successfully!", then to the dashboard

  /** The form's initial state: every field empty. */
  const EmptyForm := FormData("", "", "", "", "", "", "", "")

  const FieldNames: seq<string> := ["title", "description", "category", "type", "size", "condition", "tags", "image"]

  /** The form field with the given input name, if the form has one. */
  function Field(f: FormData, name: string): (r: Option<string>)
    ensures r.Some? <==> name in FieldNames
  {
    match name
    case "title" => Some(f.title)
    case "description" => Some(f.description)
    case "category" => Some(f.category)
    case "type" => Some(f.itemType)
    case "size" => Some(f.size)
    case "condition" => Some(f.condition)
    case "tags" => Some(f.tags)
    case "image" => Some(f.image)
    case _ => None
  }

  /** `handleInputChange`: `{ ...prev, [name]: value }`. Only the named field
      changes; a name the form does not have adds a property nothing reads. */
  function SetField(f: FormData, name: string, value: string): (r: FormData)
    ensures name in FieldNames ==> Field(r, name) == Some(value)
    ensures forall other :: other != name ==> Field(r, other) == Field(f, other)
    ensures name !in FieldNames ==> r == f
  {
    match name
    case "title" => f.(title := value)
    case "description" => f.(description := value)
    case "category" => f.(category := value)
    case "type" => f.(itemType := value)
    case "size" => f.(size := value)
    case "condition" => f.(condition := value)
    case "tags" => f.(tags := value)
    case "image" => f.(image := value)
    case _ => f
  }

  /** The input names the submit handler requires to be filled in. */
  const RequiredNames: seq<string> := ["title", "description", "category", "condition", "size"]

  /** Title, description, category, condition and size are all non-empty. */
  function RequiredFilled(f: FormData): (b: bool)
    ensures b <==> forall n :: n in RequiredNames ==> Field(f, n).Some? && Field(f, n).value != ""
  {
    assert Field(f, "title") == Some(f.title) && Field(f, "description") == Some(f.description);
    assert Field(f, "category") == Some(f.category) && Field(f, "condition") == Some(f.condition);
    assert Field(f, "size") == Some(f.size);
    f.title != "" && f.description != "" && f.category != "" && f.condition != "" && f.size != ""
  }

  // ---------------------------------------------------------------------
  // Tag parsing: tags.split(',').map(tag => tag.trim()).filter(tag => tag.length > 0)

  function TrimAll(pieces: seq<string>): (r: seq<string>)
    ensures |r| == |pieces|
    ensures forall k :: 0 <= k < |pieces| ==> r[k] == Trim(pieces[k])
  {
    seq(|pieces|, k requires 0 <= k < |pieces| => Trim(pieces[k]))
  }

  function NonEmpty(): string -> bool
  {
    (t: string) => |t| > 0
  }

  /** A tag as the form stores it: non-empty, no white space at either end, no comma. */
  ghost predicate CleanTag(t: string)
  {
    t != "" && !IsSpace(t[0]) && !IsSpace(t[|t| - 1]) && ',' !in t
  }

  /** The tag list typed into the form, as the item stores it: the trimmed
      comma-separated pieces, in input order, without the empty ones. */
  function ParseTags(s: string): (tags: seq<string>)
    ensures forall t :: t in tags ==> CleanTag(t)
    ensures IsSubsequence(tags, TrimAll(Split(s, ',')))
    ensures forall p :: p in Split(s, ',') && Trim(p) != "" ==> Trim(p) in tags
    ensures forall t :: t != "" ==> multiset(tags)[t] == multiset(TrimAll(Split(s, ',')))[t]
  {
    var pieces := Split(s, ',');
    var trimmed := TrimAll(pieces);
    FilterIsSubsequence(NonEmpty(), trimmed);
    forall t | t in trimmed ensures t == "" || CleanTag(t) {
      var k :| 0 <= k < |trimmed| && trimmed[k] == t;
      TrimmedPieceClean(pieces, k);
    }
    forall p | p in pieces && Trim(p) != "" ensures Trim(p) in trimmed {
      var k :| 0 <= k < |pieces| && pieces[k] == p;
      assert trimmed[k] == Trim(p);
    }
    forall t | t != "" ensures multiset(Filter(NonEmpty(), trimmed))[t] == multiset(trimmed)[t] {
      FilterCounts(NonEmpty(), trimmed, t);
    }
    Filter(NonEmpty(), trimmed)
  }

  /** A trimmed piece between commas is empty or a clean tag. */
  lemma TrimmedPieceClean(pieces: seq<string>, k: int)
    requires 0 <= k < |pieces| && ',' !in pieces[k]
    ensures TrimAll(pieces)[k] == "" || CleanTag(TrimAll(pieces)[k])
  {
    TrimAddsNothing(pieces[k], ',');
  }

  /** An empty tag field gives no tags. */
  lemma NoTagsFromEmptyField()
    ensures ParseTags("") == []
  {
    assert Split("", ',') == [""];
    assert Trim("") == "";
  }

  /** Typing clean tags the way the form's placeholder shows them, separated
      by ", ", gives back exactly those tags. */
  lemma {:induction false} ParseTagsRoundTrip(tags: seq<string>)
    requires forall t :: t in tags ==> CleanTag(t)
    ensures ParseTags(Join(Padded(tags), ',')) == tags
  {
    if tags == [] {
      NoTagsFromEmptyField();
    } else {
      var pieces := Padded(tags);
      assert forall k :: 0 <= k < |pieces| ==> ',' !in pieces[k] by {
        forall k | 0 <= k < |pieces| ensures ',' !in pieces[k] {
          assert CleanTag(tags[k]);
        }
      }
      SplitJoin(pieces, ',');
      TrimPadded(tags);
      assert ParseTags(Join(pieces, ',')) == Filter(NonEmpty(), TrimAll(pieces));
      FilterKeepsAll(NonEmpty(), tags);
    }
  }

  /** The pieces of "a, b, c" between the commas: every tag after the first
      carries one leading space. */
  function Padded(tags: seq<string>): (r: seq<string>)
    ensures |r| == |tags|
    ensures forall k :: 0 <= k < |tags| && ',' !in tags[k] ==> ',' !in r[k]
  {
    seq(|tags|, k requires 0 <= k < |tags| => if k == 0 then tags[0] else " " + tags[k])
  }

  /** Trimming the pieces of "a, b, c" gives back the tags. */
  lemma TrimPadded(tags: seq<string>)
    requires forall t :: t in tags ==> CleanTag(t)
    ensures TrimAll(Padded(tags)) == tags
  {
    var trimmed := TrimAll(Padded(tags));
    forall k | 0 <= k < |tags| ensures trimmed[k] == tags[k] {
      TrimPiece(tags, k);
    }
  }

  /** One piece of "a, b, c" trims back to its tag. */
  lemma TrimPiece(tags: seq<string>, k: int)
    requires 0 <= k < |tags| && CleanTag(tags[k])
    ensures Trim(Padded(tags)[k]) == tags[k]
  {
    if k == 0 {
      TrimmedIsFixed(tags[0]);
    } else {
      TrimOfPadded(tags[k]);
    }
  }

  lemma TrimOfPadded(t: string)
    requires t != "" && !IsSpace(t[0]) && !IsSpace(t[|t| - 1])
    ensures Trim(" " + t) == t
  {
    assert (" " + t)[1..] == t;
    assert TrimStart(" " + t) == TrimStart(t) == t;
  }

  // ---------------------------------------------------------------------
  // Submission

  /** The item handed to `addItem`: the type falls back to the category, the
      tags are parsed, the owner is the user, and the item starts available
      and approved. */
  function NewItem(f: FormData, u: User): (d: ItemDraft)
    ensures d.itemType == (if f.itemType != "" then f.itemType else f.category)
    ensures d.status == Available && d.isApproved
    ensures d.uploaderId == u.id && d.uploaderName == u.name
    ensures d.tags == ParseTags(f.tags)
    ensures d.title == f.title && d.description == f.description && d.category == f.category
    ensures d.size == f.size && d.condition == f.condition && d.image == f.image
  {
    ItemDraft(f.title, f.description, f.category,
              if f.itemType != "" then f.itemType else f.category,
              f.size, f.condition, ParseTags(f.tags), f.image,
              u.id, u.name, Available, true)
  }

  /** Submitting the untouched form stops at the required-fields check. */
  lemma FreshFormIsIncomplete()
    ensures !RequiredFilled(EmptyForm)
  {
    assert Field(EmptyForm, "title") == Some("");
  }

  /** `handleSubmit`: the required fields are checked first, then the image;
      only then is the item built and added, once. With nobody signed in,
      reading the user's id throws inside the `try`, so the handler reports
      failure and adds nothing. */
  method Submit(f: FormData, user: Option<User>, store: ItemStore, id: string, createdAt: int)
    returns (outcome: SubmitOutcome)
    requires store.Valid()
    modifies store
    ensures store.Valid()
    ensures outcome == MissingFields <==> !RequiredFilled(f)
    ensures outcome == MissingImage <==> RequiredFilled(f) && f.image == ""
    ensures outcome == AddFailed <==> RequiredFilled(f) && f.image != "" && user.None?
    ensures outcome == Added <==> RequiredFilled(f) && f.image != "" && user.Some?
    ensures outcome == Added ==>
              store.items == old(store.items) + [WithIdentity(NewItem(f, user.value), id, createdAt)]
    ensures outcome != Added ==> store.items == old(store.items)
    ensures store.swapRequests == old(store.swapRequests)
  {
    if f.title == "" || f.description == "" || f.category == "" || f.condition == "" || f.size == "" {
      return MissingFields;
    }
    if f.image == "" {
      return MissingImage;
    }
    if user.None? {
      return AddFailed;
    }
    store.AddItem(NewItem(f, user.value), id, createdAt);
    outcome := Added;
  }
}
