/**
 * Riddle categories (`convex/category.ts`): a category is stored once
 * under its lower-cased, trimmed name.
 */
module Categories {
  import opened Wrappers
  import opened Store
  import opened Text

  /** `id` is the one and only category called `name`. */
  ghost predicate SoleCategory(categories: map<Id, Category>, name: string, id: Id)
  {
    && id in categories
    && categories[id].name == name
    && forall k :: k in categories && categories[k].name == name ==> k == id
  }

  /**
   * `saveCategory`: looks the normalised name up with `.unique()`;
   * returns the existing id without writing, or inserts one category.
   * On success the id returned is the only category with that name, so
   * saving any name with the same normalised form again returns the same
   * id and writes nothing.
   */
  method SaveCategory(db: Db, name: string) returns (r: Result<Id>)
    requires db.Valid()
    modifies db`categories, db`nextId
    ensures db.Valid()
    ensures var cat := LowerTrim(name);
            && (forall id: Id :: SoleCategory(old(db.categories), cat, id) ==>
                  r == Ok(id) && db.categories == old(db.categories) && db.nextId == old(db.nextId))
            && ((forall k :: k in old(db.categories) ==> old(db.categories)[k].name != cat) ==>
                  && r == Ok(old(db.nextId))
                  && db.categories == old(db.categories)[old(db.nextId) := Category(cat)]
                  && db.nextId == old(db.nextId) + 1)
            && (r.Err? ==>
                  && r.msg == NOT_UNIQUE
                  && db.categories == old(db.categories) && db.nextId == old(db.nextId)
                  && exists a, b :: a in old(db.categories) && b in old(db.categories) && a != b
                                    && old(db.categories)[a].name == cat && old(db.categories)[b].name == cat)
            && (r.Ok? ==> SoleCategory(db.categories, cat, r.value))
  {
    var cat := LowerTrim(name);
    var existing := Unique(db.categories, db.nextId, (c: Category) => c.name == cat);
    match existing
    case OneRow(id) =>
      r := Ok(id);
    case ManyRows =>
      r := Err(NOT_UNIQUE);
    case NoRow =>
      var id := db.InsertCategory(Category(cat));
      r := Ok(id);
  }
}
