/**
  The item table and the three item-changing handlers of app.py:
  `add_item`, `edit_item` and `delete_item`. The table is a map from row id
  to row; each handler either commits exactly one change or leaves the table
  as it was, and reports which through an `Outcome` instead of a flash
  message and a redirect.
*/
module Catalog {
  import opened Wrappers
  import opened Upload
  import Ids

  newtype byte = x: int | 0 <= x < 256
  type Bytes = seq<byte>

  /** The value of the price column. Converting the submitted text to a
      floating-point number happens outside the model. */
  type Price(==, !new)

  /** One row of the item table; the image column is nullable. */
  datatype Item = Item(title: string, category: string, quantity: int,
                       details: string, price: Price, image: Option<Bytes>)

  /** The text fields of the add and edit forms. */
  datatype ItemForm = ItemForm(title: string, category: string, quantity: int,
                               details: string, price: Price)

  /** The `image` part of a submitted form. A file input left empty arrives
      with the file name "". */
  datatype FilePart = FilePart(filename: string, data: Bytes)

  datatype Rejection = NoImageSelected | InvalidFileType

  /** What a handler reports: committed, turned away with a message, or the
      row id did not exist (the 404 page). */
  datatype Outcome = Ok | Rejected(why: Rejection) | NotFound

  type Table = map<nat, Item>

  /** The outcome of a request together with the table it leaves behind. */
  datatype Step = Step(outcome: Outcome, table: Table)

  /** The truth value of an uploaded file part: true when it has a name. */
  predicate Selected(image: FilePart) {
    image.filename != ""
  }

  /** The row `add_item` stores: the submitted fields and the uploaded bytes. */
  function NewItem(form: ItemForm, data: Bytes): Item {
    Item(form.title, form.category, form.quantity, form.details, form.price, Some(data))
  }

  /** The row carries exactly the submitted fields. */
  predicate HasFields(item: Item, form: ItemForm) {
    && item.title == form.title && item.category == form.category
    && item.quantity == form.quantity && item.details == form.details
    && item.price == form.price
  }

  /** The two checks both handlers make on a file part. */
  datatype Screening = NoFile | Disallowed | Accepted(data: Bytes)

  function Screen(image: FilePart): (v: Screening)
    ensures v.NoFile? <==> image.filename == ""
    ensures v.Accepted? <==> AllowedFile(image.filename)
    ensures v.Accepted? ==> v.data == image.data
  {
    if !Selected(image) then NoFile
    else if AllowedFile(image.filename) then Accepted(image.data)
    else Disallowed
  }

  /** `add_item` on a POST, the new row getting the unused key `id`. */
  function AddStep(t: Table, form: ItemForm, image: FilePart, id: nat): (r: Step)
    requires id !in t
    ensures image.filename == "" ==> r == Step(Rejected(NoImageSelected), t)
    ensures image.filename != "" && !AllowedFile(image.filename) ==> r == Step(Rejected(InvalidFileType), t)
    ensures r.outcome.Ok? <==> AllowedFile(image.filename)
    ensures r.outcome.Ok? ==>
              && r.table.Keys == t.Keys + {id} && |r.table| == |t| + 1
              && HasFields(r.table[id], form) && r.table[id].image == Some(image.data)
              && forall k :: k in t ==> r.table[k] == t[k]
  {
    match Screen(image)
    case NoFile => Step(Rejected(NoImageSelected), t)
    case Disallowed => Step(Rejected(InvalidFileType), t)
    case Accepted(data) => Step(Ok, t[id := NewItem(form, data)])
  }

  /** The row `edit_item` commits: the submitted fields, and the image
      replaced only when a new one was uploaded. */
  function Edited(before: Item, form: ItemForm, image: Option<Bytes>): Item {
    Item(form.title, form.category, form.quantity, form.details, form.price,
         if image.Some? then image else before.image)
  }

  /** `edit_item` on a POST. */
  function EditStep(t: Table, id: nat, form: ItemForm, image: FilePart): (r: Step)
    ensures id !in t ==> r == Step(NotFound, t)
    ensures id in t ==> (r.outcome.Ok? <==> image.filename == "" || AllowedFile(image.filename))
    ensures id in t && !r.outcome.Ok? ==> r == Step(Rejected(InvalidFileType), t)
    ensures r.table.Keys == t.Keys
    ensures forall k :: k in t && k != id ==> r.table[k] == t[k]
    ensures r.outcome.Ok? ==> HasFields(r.table[id], form)
    ensures r.outcome.Ok? && image.filename == "" ==> r.table[id].image == t[id].image
    ensures r.outcome.Ok? && image.filename != "" ==> r.table[id].image == Some(image.data)
  {
    if id !in t then Step(NotFound, t)
    else
      match Screen(image)
      case NoFile => Step(Ok, t[id := Edited(t[id], form, None)])
      case Disallowed => Step(Rejected(InvalidFileType), t)
      case Accepted(data) => Step(Ok, t[id := Edited(t[id], form, Some(data))])
  }

  /** `delete_item`. */
  function DeleteStep(t: Table, id: nat): (r: Step)
    ensures id !in t ==> r == Step(NotFound, t)
    ensures id in t ==> r.outcome == Ok && r.table.Keys == t.Keys - {id} && |r.table| == |t| - 1
    ensures forall k :: k in r.table ==> k in t && r.table[k] == t[k]
  {
    if id !in t then Step(NotFound, t) else Step(Ok, t - {id})
  }

  /** Deleting the row just added restores the table it was added to. */
  lemma AddThenDelete(t: Table, form: ItemForm, image: FilePart, id: nat)
    requires id !in t && AllowedFile(image.filename)
    ensures DeleteStep(AddStep(t, form, image, id).table, id) == Step(Ok, t)
  {
  }

  /** Once a row is deleted, deleting or editing it again finds nothing and
      changes nothing. */
  lemma DeletedStaysGone(t: Table, id: nat, form: ItemForm, image: FilePart)
    ensures var after := DeleteStep(t, id).table;
            && DeleteStep(after, id) == Step(NotFound, after)
            && EditStep(after, id, form, image) == Step(NotFound, after)
  {
  }

  /** Submitting the same edit twice leaves the table as submitting it once. */
  lemma EditIdempotent(t: Table, id: nat, form: ItemForm, image: FilePart)
    ensures var once := EditStep(t, id, form, image);
            EditStep(once.table, id, form, image) == once
  {
  }

  /** An edit that uploads no new file keeps the bytes the item was added
      with, byte for byte, while replacing every text field. */
  lemma EditKeepsAddedImage(t: Table, form: ItemForm, image: FilePart, id: nat,
                            form': ItemForm, data': Bytes)
    requires id !in t && AllowedFile(image.filename)
    ensures var added := AddStep(t, form, image, id).table;
            var edited := EditStep(added, id, form', FilePart("", data'));
            && edited.outcome == Ok
            && edited.table[id] == NewItem(form', image.data)
  {
  }

  /** The item table as the handlers see it. */
  class ItemStore {
    var items: Table

    constructor ()
      ensures items == map[]
    {
      items := map[];
    }

    /** `add_item`: the image must be present and allowed; then one row with
        a fresh key and the uploaded bytes is committed. The key is chosen
        before the file is screened, so `id` names a stored row only when
        `outcome == Ok`; after a rejection it is an unused key and nothing more. */
    method AddItem(form: ItemForm, image: FilePart) returns (outcome: Outcome, id: nat)
      modifies this
      ensures id !in old(items)
      ensures Step(outcome, items) == AddStep(old(items), form, image, id)
    {
      Ids.FreshIdExists(items.Keys);
      id :| id !in items;
      if image.filename == "" {
        return Rejected(NoImageSelected), id;
      }
      if Selected(image) && AllowedFile(image.filename) {
        // the file is saved under the upload folder and read back; the
        // bytes read back are the bytes uploaded
        var data := image.data;
        items := items[id := NewItem(form, data)];
        outcome := Ok;
      } else {
        outcome := Rejected(InvalidFileType);
      }
    }

    /** `edit_item`: overwrite the fields of an existing row, and its image
        only when an allowed file was uploaded; a disallowed file abandons the
        whole edit. */
    method EditItem(id: nat, form: ItemForm, image: FilePart) returns (outcome: Outcome)
      modifies this
      ensures Step(outcome, items) == EditStep(old(items), id, form, image)
    {
      if id !in items {
        return NotFound;
      }
      var item := items[id];
      item := item.(title := form.title, category := form.category, quantity := form.quantity,
                    details := form.details, price := form.price);
      if image.filename != "" {
        if Selected(image) && AllowedFile(image.filename) {
          item := item.(image := Some(image.data));
        } else {
          // returning before the commit discards the field assignments
          return Rejected(InvalidFileType);
        }
      }
      items := items[id := item];
      outcome := Ok;
    }

    /** `delete_item`. */
    method DeleteItem(id: nat) returns (outcome: Outcome)
      modifies this
      ensures Step(outcome, items) == DeleteStep(old(items), id)
    {
      if id !in items {
        return NotFound;
      }
      items := items - {id};
      outcome := Ok;
    }
  }
}
