/**
 * Entities, enumerations and input validators of the school inventory server
 * (server/src/schema.ts), with the table constraints and column defaults of
 * its database schema (server/src/db/schema.ts).
 */
module Schema {

  datatype Option<T> = None | Some(value: T)

  /** Milliseconds since the epoch; every date column and the clock are this. */
  type Timestamp = int

  /** One day in milliseconds. */
  const DayMs: int := 86_400_000

  datatype ItemType = DigitalBook | LaboratoryEquipment | Furniture | ItAsset

  datatype UserRole = Admin | Teacher | Student

  /** Lifecycle state of a borrowing record. */
  datatype Status = Active | Returned | Overdue

  /** A row of the inventory_items table. The price is kept as an exact value. */
  datatype Item = Item(
    id: int,
    name: string,
    description: Option<string>,
    itemType: ItemType,
    labelCode: string,
    quantityTotal: int,
    quantityAvailable: int,
    location: Option<string>,
    purchaseDate: Option<Timestamp>,
    purchasePrice: Option<real>,
    conditionNotes: Option<string>,
    createdAt: Timestamp,
    updatedAt: Timestamp)

  /** A row of the users table (students and teachers). */
  datatype User = User(
    id: int,
    name: string,
    email: string,
    role: UserRole,
    studentId: Option<string>,
    department: Option<string>,
    createdAt: Timestamp)

  /** A row of the borrowing_records table. item_id and user_id are plain
      integers: the table declares no foreign key. */
  datatype Record = Record(
    id: int,
    itemId: int,
    userId: int,
    quantityBorrowed: int,
    borrowedDate: Timestamp,
    dueDate: Timestamp,
    returnedDate: Option<Timestamp>,
    status: Status,
    notes: Option<string>,
    createdAt: Timestamp,
    updatedAt: Timestamp)

  /** The failures the handlers raise, with the values their messages quote. */
  datatype Error =
    | ItemNotFound(itemId: int)
    | UserNotFound(userId: int)
    | RecordNotFound(recordId: int)
    | InsufficientQuantity(requested: int, available: int)
    | TotalBelowBorrowed(requestedTotal: int, borrowed: int)
    | AlreadyReturned
    | HasActiveBorrowings
    | DuplicateLabel(labelCode: string)

  datatype Result<T> = Ok(value: T) | Err(error: Error)

  /** One field of a partial update: left out, or supplied. For a nullable
      column the supplied value is itself an Option, so `Put(None)` clears it. */
  datatype Patch<T> = Keep | Put(value: T)

  datatype CreateItemInput = CreateItemInput(
    name: string,
    description: Option<string>,
    itemType: ItemType,
    labelCode: string,
    quantityTotal: int,
    location: Option<string>,
    purchaseDate: Option<Timestamp>,
    purchasePrice: Option<real>,
    conditionNotes: Option<string>)

  datatype UpdateItemInput = UpdateItemInput(
    id: int,
    name: Patch<string>,
    description: Patch<Option<string>>,
    itemType: Patch<ItemType>,
    labelCode: Patch<string>,
    quantityTotal: Patch<int>,
    location: Patch<Option<string>>,
    purchaseDate: Patch<Option<Timestamp>>,
    purchasePrice: Patch<Option<real>>,
    conditionNotes: Patch<Option<string>>)

  datatype BorrowInput = BorrowInput(
    itemId: int,
    userId: int,
    quantityBorrowed: int,
    durationDays: int,
    notes: Option<string>)

  /** The return input: a record id and notes that may be null. */
  datatype ReturnInput = ReturnInput(recordId: int, notes: Option<string>)

  // ---------------------------------------------------------------------------
  // Input validators

  /** The create schema (server/src/schema.ts:85-95): non-empty name and label,
      a positive total and a positive price when one is given. */
  predicate ValidCreateItemInput(input: CreateItemInput) {
    && |input.name| >= 1
    && |input.labelCode| >= 1
    && input.quantityTotal > 0
    && (input.purchasePrice.Some? ==> input.purchasePrice.value > 0.0)
  }

  /** The update schema (server/src/schema.ts:99-110): every field but the id
      is optional, and a supplied field obeys the same rule as on creation. */
  predicate ValidUpdateItemInput(input: UpdateItemInput) {
    && (input.name.Put? ==> |input.name.value| >= 1)
    && (input.labelCode.Put? ==> |input.labelCode.value| >= 1)
    && (input.quantityTotal.Put? ==> input.quantityTotal.value > 0)
    && (input.purchasePrice.Put? && input.purchasePrice.value.Some? ==> input.purchasePrice.value.value > 0.0)
  }

  /** The borrow schema (server/src/schema.ts:124-130): a positive quantity and
      a positive number of days. */
  predicate ValidBorrowInput(input: BorrowInput) {
    input.quantityBorrowed > 0 && input.durationDays > 0
  }

  // ---------------------------------------------------------------------------
  // Table constraints

  predicate UniqueItemIds(items: seq<Item>) {
    forall i, j | 0 <= i < j < |items| :: items[i].id != items[j].id
  }

  /** label_code is UNIQUE in inventory_items. */
  predicate UniqueLabels(items: seq<Item>) {
    forall i, j | 0 <= i < j < |items| :: items[i].labelCode != items[j].labelCode
  }

  predicate UniqueRecordIds(records: seq<Record>) {
    forall i, j | 0 <= i < j < |records| :: records[i].id != records[j].id
  }

  predicate UniqueUserIds(users: seq<User>) {
    forall i, j | 0 <= i < j < |users| :: users[i].id != users[j].id
  }

  /** email is UNIQUE in users. */
  predicate UniqueEmails(users: seq<User>) {
    forall i, j | 0 <= i < j < |users| :: users[i].email != users[j].email
  }

  predicate LabelInUse(items: seq<Item>, code: string) {
    exists i | 0 <= i < |items| :: items[i].labelCode == code
  }

  /** Some item other than `id` already carries `code`. */
  predicate LabelTakenByOther(items: seq<Item>, code: string, id: int) {
    exists i | 0 <= i < |items| :: items[i].id != id && items[i].labelCode == code
  }

  /** The quantity columns of an item row. */
  predicate ItemRowOk(it: Item) {
    it.quantityTotal >= 1 && it.quantityAvailable >= 0
  }

  /** A record row: a positive quantity, and a return date exactly when returned. */
  predicate RecordRowOk(r: Record) {
    r.quantityBorrowed >= 1 && (r.returnedDate.Some? <==> r.status == Returned)
  }

  // ---------------------------------------------------------------------------
  // Rows as inserted, with the column defaults

  /** The row createInventoryItem inserts: every unit is available. */
  function NewItem(id: int, input: CreateItemInput, now: Timestamp): (it: Item)
    ensures it.id == id && it.quantityTotal == input.quantityTotal
    ensures it.quantityTotal - it.quantityAvailable == 0
    ensures && it.name == input.name && it.description == input.description
            && it.itemType == input.itemType && it.labelCode == input.labelCode
            && it.location == input.location && it.purchaseDate == input.purchaseDate
            && it.purchasePrice == input.purchasePrice && it.conditionNotes == input.conditionNotes
    ensures it.createdAt == now && it.updatedAt == now
    ensures ValidCreateItemInput(input) ==> ItemRowOk(it) && |it.labelCode| >= 1
  {
    Item(id, input.name, input.description, input.itemType, input.labelCode,
         input.quantityTotal, input.quantityTotal, input.location, input.purchaseDate,
         input.purchasePrice, input.conditionNotes, now, now)
  }

  /** The row createBorrowingRecord inserts. status, borrowed_date,
      returned_date, created_at and updated_at come from the column defaults. */
  function NewRecord(id: int, input: BorrowInput, now: Timestamp): (r: Record)
    ensures r.id == id && r.itemId == input.itemId && r.userId == input.userId
    ensures r.quantityBorrowed == input.quantityBorrowed && r.notes == input.notes
    ensures r.status == Active && r.returnedDate == None && r.borrowedDate == now
    ensures r.createdAt == now && r.updatedAt == now
    ensures r.dueDate - r.borrowedDate == input.durationDays * DayMs
    ensures ValidBorrowInput(input) ==> RecordRowOk(r) && r.dueDate >= now + DayMs
  {
    Record(id, input.itemId, input.userId, input.quantityBorrowed,
           now, now + input.durationDays * DayMs, None, Active, input.notes, now, now)
  }
}
