/** The `Category` model of category/models.py: the table of a user's
    categories, the single-default guard of `save`, the protection of
    default categories in `delete`, and the (category, user) uniqueness the
    database enforces. */
module Categories {
  import opened Wrappers

  /** A stored category: `name` is the `category` column. */
  datatype CategoryRow = CategoryRow(id: nat, name: string, income: bool, isDefault: bool, description: string, user: nat)

  datatype CategoryError =
    | MultipleDefaults
    | DuplicateName
    | DefaultUndeletable
    | UnknownCategory

  /** r is a default category of the user with the given income flag. */
  predicate DefaultOf(r: CategoryRow, user: nat, income: bool) {
    r.isDefault && r.user == user && r.income == income
  }

  /** The guard of `save` as written: some stored default category has c's
      user and income flag, c itself included. */
  predicate DefaultTakenAsWritten(rows: map<nat, CategoryRow>, c: CategoryRow) {
    exists id :: id in rows && DefaultOf(rows[id], c.user, c.income)
  }

  /** The guard as evidently intended: some other stored category is that
      default. */
  predicate DefaultTaken(rows: map<nat, CategoryRow>, c: CategoryRow) {
    exists id :: id in rows && id != c.id && DefaultOf(rows[id], c.user, c.income)
  }

  /** Some other stored category has c's name and user. */
  predicate NameTaken(rows: map<nat, CategoryRow>, c: CategoryRow) {
    exists id :: id in rows && id != c.id && rows[id].name == c.name && rows[id].user == c.user
  }

  /** Rows are stored under their ids; at most one default per user and
      income flag; (category, user) is unique. */
  ghost predicate TableOk(rows: map<nat, CategoryRow>, nextId: nat) {
    && (forall id :: id in rows ==> rows[id].id == id && id < nextId)
    && (forall a, b ::
          (a in rows && b in rows && a != b && rows[a].isDefault && rows[b].isDefault && rows[a].user == rows[b].user)
          ==> rows[a].income != rows[b].income)
    && (forall a, b :: a in rows && b in rows && a != b && rows[a].user == rows[b].user ==>
                       rows[a].name != rows[b].name)
  }

  /** Re-saving a stored default category trips the guard as written, but
      not the intended guard, since no other default of its kind can exist. */
  lemma ResaveDefaultRefused(rows: map<nat, CategoryRow>, nextId: nat, c: CategoryRow)
    requires TableOk(rows, nextId) && c.id in rows && rows[c.id] == c && c.isDefault
    ensures DefaultTakenAsWritten(rows, c)
    ensures !DefaultTaken(rows, c)
  {
    assert DefaultOf(rows[c.id], c.user, c.income);
  }

  /** The intended guard only refuses what the guard as written refuses, and
      both agree on a category that is not stored yet. */
  lemma DefaultGuardsAgree(rows: map<nat, CategoryRow>, c: CategoryRow)
    ensures DefaultTaken(rows, c) ==> DefaultTakenAsWritten(rows, c)
    ensures c.id !in rows ==> (DefaultTaken(rows, c) <==> DefaultTakenAsWritten(rows, c))
  {
  }

  /** The category table. */
  class CategoryTable {
    var rows: map<nat, CategoryRow>
    var nextId: nat

    ghost predicate Valid()
      reads this
    {
      TableOk(rows, nextId)
    }

    constructor ()
      ensures Valid() && rows == map[] && nextId == 0
    {
      rows := map[];
      nextId := 0;
    }

    /** `Category.save` with the guard as written: a category marked default
        is refused whenever a default of its user and income flag is stored,
        even when that default is the category itself. */
    method SaveAsWritten(c: CategoryRow) returns (res: Result<nat, CategoryError>)
      requires Valid()
      modifies this
      ensures Valid()
      ensures c.isDefault && DefaultTakenAsWritten(old(rows), c) ==> res == Err(MultipleDefaults)
      ensures !(c.isDefault && DefaultTakenAsWritten(old(rows), c)) && NameTaken(old(rows), c) ==>
        res == Err(DuplicateName)
      ensures !(c.isDefault && DefaultTakenAsWritten(old(rows), c)) && !NameTaken(old(rows), c) ==>
        && res.Ok?
        && (c.id in old(rows) ==> res.value == c.id && rows == old(rows)[c.id := c] && nextId == old(nextId))
        && (c.id !in old(rows) ==>
              && res.value == old(nextId) && rows == old(rows)[res.value := c.(id := res.value)]
              && nextId == old(nextId) + 1)
      ensures res.Err? ==> rows == old(rows) && nextId == old(nextId)
    {
      if c.isDefault && DefaultTakenAsWritten(rows, c) {
        return Err(MultipleDefaults);
      }
      res := Write(c);
    }

    /** `Category.save` with the guard excluding the category itself: a
        default is refused only when another default of its user and income
        flag is stored; then the row is written. */
    method Save(c: CategoryRow) returns (res: Result<nat, CategoryError>)
      requires Valid()
      modifies this
      ensures Valid()
      ensures c.isDefault && DefaultTaken(old(rows), c) ==> res == Err(MultipleDefaults)
      ensures !(c.isDefault && DefaultTaken(old(rows), c)) && NameTaken(old(rows), c) ==>
        res == Err(DuplicateName)
      ensures !(c.isDefault && DefaultTaken(old(rows), c)) && !NameTaken(old(rows), c) ==>
        && res.Ok?
        && (c.id in old(rows) ==> res.value == c.id && rows == old(rows)[c.id := c] && nextId == old(nextId))
        && (c.id !in old(rows) ==>
              && res.value == old(nextId) && rows == old(rows)[res.value := c.(id := res.value)]
              && nextId == old(nextId) + 1)
      ensures res.Err? ==> rows == old(rows) && nextId == old(nextId)
    {
      if c.isDefault && DefaultTaken(rows, c) {
        return Err(MultipleDefaults);
      }
      res := Write(c);
    }

    /** The database write behind `super().save()`: an update of a stored
        row or an insert under the next id, refused by the (category, user)
        constraint. */
    method Write(c: CategoryRow) returns (res: Result<nat, CategoryError>)
      requires Valid() && !(c.isDefault && DefaultTaken(rows, c))
      modifies this
      ensures Valid()
      ensures NameTaken(old(rows), c) ==> res == Err(DuplicateName) && rows == old(rows) && nextId == old(nextId)
      ensures !NameTaken(old(rows), c) ==>
        && res.Ok?
        && (c.id in old(rows) ==> res.value == c.id && rows == old(rows)[c.id := c] && nextId == old(nextId))
        && (c.id !in old(rows) ==>
              && res.value == old(nextId) && rows == old(rows)[res.value := c.(id := res.value)]
              && nextId == old(nextId) + 1)
    {
      if NameTaken(rows, c) {
        return Err(DuplicateName);
      }
      if c.id in rows {
        rows := rows[c.id := c];
        return Ok(c.id);
      }
      var id := nextId;
      var row := c.(id := id);
      assert forall j :: j in rows ==> j != id && j != c.id;
      rows := rows[id := row];
      nextId := nextId + 1;
      return Ok(id);
    }

    /** `Category.delete`: a default category cannot be deleted; any other
        stored category is removed. */
    method Delete(id: nat) returns (o: Outcome<CategoryError>)
      requires Valid()
      modifies this
      ensures Valid() && nextId == old(nextId)
      ensures id !in old(rows) ==> o == Fail(UnknownCategory) && rows == old(rows)
      ensures id in old(rows) && old(rows)[id].isDefault ==> o == Fail(DefaultUndeletable) && rows == old(rows)
      ensures id in old(rows) && !old(rows)[id].isDefault ==> o == Pass && rows == old(rows) - {id}
    {
      if id !in rows {
        return Fail(UnknownCategory);
      }
      if rows[id].isDefault {
        return Fail(DefaultUndeletable);
      }
      rows := rows - {id};
      return Pass;
    }
  }

  /** A user without categories gets a first default income category saved;
      a second default income category of the same user is refused, and a
      second category of the same name with another user is accepted. */
  lemma DefaultScenario()
    ensures var first := CategoryRow(0, "Salary", true, true, "", 7);
      var rows := map[0 := first];
      && !DefaultTaken(map[], first) && !NameTaken(map[], first)
      && DefaultTaken(rows, CategoryRow(1, "Bonus", true, true, "", 7))
      && !DefaultTaken(rows, CategoryRow(1, "Salary", true, true, "", 8))
      && !NameTaken(rows, CategoryRow(1, "Salary", true, true, "", 8))
      && NameTaken(rows, CategoryRow(1, "Salary", false, false, "", 7))
  {
    var first := CategoryRow(0, "Salary", true, true, "", 7);
    var rows := map[0 := first];
    assert DefaultOf(rows[0], 7, true);
    assert rows[0].name == "Salary" && rows[0].user == 7;
  }
}
