/** The categories page: deleting a category everywhere it is referenced,
    adding a category after validating its name, the name error shown while
    typing, toggling a favourite and the rule for when a delete must be
    confirmed. */
module Categories {
  import opened Wrappers
  import opened UserTypes
  import Seqs
  import Numerals

  /** The message of the error under a category name input (the add form's
      and the edit dialog's), naming the limit in decimal; the error itself is
      `LengthError(name, maxLength, NameTooLongMessage(maxLength))`. */
  function NameTooLongMessage(maxLength: nat): string {
    "El nombre es demasiado largo (máximo " + Numerals.ToString(maxLength, 10) + " caracteres)"
  }

  // ---------------------------------------------------------------------
  // Deleting
  // ---------------------------------------------------------------------

  /** A task's category list without the category `id`; a missing list stays
      missing (`task.category?.filter(...)`). */
  function DropCategory(cats: Option<seq<Category>>, id: Id): (r: Option<seq<Category>>)
    ensures r.Some? <==> cats.Some?
    ensures r.Some? ==> forall c :: c in r.value <==> c in cats.value && c.id != id
    ensures r.Some? ==> Seqs.IsSubseq(r.value, cats.value)
  {
    match cats
    case None => None
    case Some(cs) =>
      var keep := (c: Category) => c.id != id;
      Seqs.FilterOrdered(cs, keep);
      Some(Seqs.Filter(cs, keep))
  }

  /** `handleDelete`: with no id nothing changes; otherwise the category goes
      from the categories, the favourites and every task, and its id is
      tombstoned unless it already is. */
  function DeleteCategory(user: User, categoryId: Option<Id>): (u: User)
    ensures Falsy(categoryId) ==> u == user
    ensures Seqs.IsSubseq(u.categories, user.categories)
    ensures Seqs.IsSubseq(u.favoriteCategories, user.favoriteCategories)
  {
    if Falsy(categoryId) then
      Seqs.SubseqRefl(user.categories);
      Seqs.SubseqRefl(user.favoriteCategories);
      user
    else
      var id := categoryId.value;
      var keepCategory := (c: Category) => c.id != id;
      var keepFavorite := (f: Id) => f != id;
      Seqs.FilterOrdered(user.categories, keepCategory);
      Seqs.FilterOrdered(user.favoriteCategories, keepFavorite);
      user.(categories := Seqs.Filter(user.categories, keepCategory),
            favoriteCategories := Seqs.Filter(user.favoriteCategories, keepFavorite),
            tasks := seq(|user.tasks|, i requires 0 <= i < |user.tasks| =>
                         user.tasks[i].(category := DropCategory(user.tasks[i].category, id))),
            deletedCategories := user.deletedCategories + (if id in user.deletedCategories then [] else [id]))
  }

  /** After a delete no category, favourite or task refers to the id any more;
      everything else that referred to another id still does; the tasks keep
      every other field; the old tombstones stay as a prefix and the id is
      tombstoned once more at most; the other fields of the user are
      untouched. */
  lemma DeleteCategoryEffect(user: User, id: Id)
    requires id != ""
    ensures var u := DeleteCategory(user, Some(id));
            (forall c :: c in u.categories <==> c in user.categories && c.id != id) &&
            (forall f :: f in u.favoriteCategories <==> f in user.favoriteCategories && f != id) &&
            Seqs.IsSubseq(u.categories, user.categories) &&
            Seqs.IsSubseq(u.favoriteCategories, user.favoriteCategories) &&
            |u.tasks| == |user.tasks| &&
            (forall i :: 0 <= i < |u.tasks| ==> u.tasks[i].category.Some? ==>
               Seqs.IsSubseq(u.tasks[i].category.value, user.tasks[i].category.value)) &&
            (forall i :: 0 <= i < |u.tasks| ==>
               u.tasks[i] == user.tasks[i].(category := u.tasks[i].category) &&
               !HasCategory(u.tasks[i], id) &&
               forall other :: other != id ==> (HasCategory(u.tasks[i], other) <==> HasCategory(user.tasks[i], other))) &&
            id in u.deletedCategories &&
            u.deletedCategories[..|user.deletedCategories|] == user.deletedCategories &&
            |u.deletedCategories| == |user.deletedCategories| + (if id in user.deletedCategories then 0 else 1) &&
            u.name == user.name && u.deletedTasks == user.deletedTasks && u.settings == user.settings
  {
    var u := DeleteCategory(user, Some(id));
    var added := if id in user.deletedCategories then [] else [id];
    assert (user.deletedCategories + added)[..|user.deletedCategories|] == user.deletedCategories;
  }

  /** A delete keeps the tombstones and the category ids free of duplicates. */
  lemma DeleteCategoryNoDup(user: User, id: Id)
    requires id != ""
    requires Seqs.NoDup(user.deletedCategories) && UniqueCategoryIds(user.categories)
    ensures Seqs.NoDup(DeleteCategory(user, Some(id)).deletedCategories)
    ensures UniqueCategoryIds(DeleteCategory(user, Some(id)).categories)
  {
    var d := user.deletedCategories;
    if id !in d {
      forall i, j | 0 <= i < j < |d + [id]| ensures (d + [id])[i] != (d + [id])[j] {
        if j == |d| {
          assert (d + [id])[i] == d[i] && d[i] in d;
        }
      }
    }
    FilterUniqueCategoryIds(user.categories, (c: Category) => c.id != id);
  }

  /** Filtering keeps category ids unique. */
  lemma {:induction false} FilterUniqueCategoryIds(cats: seq<Category>, p: Category -> bool)
    requires UniqueCategoryIds(cats)
    ensures UniqueCategoryIds(Seqs.Filter(cats, p))
  {
    if |cats| > 0 {
      var rest := cats[1..];
      assert UniqueCategoryIds(rest) by {
        forall i, j | 0 <= i < j < |rest| ensures rest[i].id != rest[j].id {
          assert rest[i] == cats[i + 1] && rest[j] == cats[j + 1];
        }
      }
      FilterUniqueCategoryIds(rest, p);
      var f := Seqs.Filter(rest, p);
      forall k | 0 <= k < |f| ensures f[k].id != cats[0].id {
        assert f[k] in rest;
        var m :| 0 <= m < |rest| && rest[m] == f[k];
        assert rest[m] == cats[m + 1];
      }
    }
  }

  /** The delete button asks for confirmation iff some task has the category
      or it is a favourite; otherwise it deletes at once. */
  predicate NeedsDeleteConfirmation(user: User, id: Id) {
    Seqs.Count(user.tasks, (t: Task) => HasCategory(t, id)) > 0 || id in user.favoriteCategories
  }

  lemma NeedsDeleteConfirmationMeaning(user: User, id: Id)
    ensures NeedsDeleteConfirmation(user, id) <==>
              (exists t :: t in user.tasks && HasCategory(t, id)) || id in user.favoriteCategories
  {
    var f := Seqs.Filter(user.tasks, (t: Task) => HasCategory(t, id));
    if |f| > 0 {
      assert f[0] in f;
    }
  }

  // ---------------------------------------------------------------------
  // Adding
  // ---------------------------------------------------------------------

  /** Why a category was not added: an empty name is reported, a name over
      the limit is silently refused. */
  datatype AddCategoryError = NameRequired | NameTooLong

  /** `handleAddCategory` with the picked emoji (`null` is `None`), the chosen
      colour, a fresh id and the current time. */
  function AddCategory(user: User, name: string, emoji: Option<string>, color: string,
                       newId: Id, now: int, maxLength: nat): (r: Result<User, AddCategoryError>)
    ensures r.Err? <==> name == "" || |name| > maxLength
    ensures r.Err? ==> (r.error == NameRequired <==> name == "")
    ensures r.Ok? ==>
              |r.value.categories| == |user.categories| + 1 &&
              r.value.categories[..|user.categories|] == user.categories &&
              r.value == user.(categories := r.value.categories)
  {
    if name == "" then Err(NameRequired)
    else if |name| > maxLength then Err(NameTooLong)
    else
      var emojiValue := if emoji.Some? && emoji.value != "" then emoji else None;
      var c := Category(newId, name, emojiValue, color, Some(now));
      assert (user.categories + [c])[..|user.categories|] == user.categories;
      Ok(user.(categories := user.categories + [c]))
  }

  /** The category appended carries the fresh id, the name, the colour and the
      time; its emoji is missing exactly when none or `""` was picked; a
      fresh id keeps the ids unique. */
  lemma AddCategoryNew(user: User, name: string, emoji: Option<string>, color: string,
                       newId: Id, now: int, maxLength: nat)
    requires name != "" && |name| <= maxLength
    ensures var r := AddCategory(user, name, emoji, color, newId, now, maxLength);
            var c := r.value.categories[|user.categories|];
            c.id == newId && c.name == name && c.color == color && c.lastSave == Some(now) &&
            (c.emoji.None? <==> emoji.None? || emoji.value == "") &&
            (c.emoji.Some? ==> c.emoji == emoji)
    ensures UniqueCategoryIds(user.categories) && newId !in CategoryIds(user.categories) ==>
              UniqueCategoryIds(AddCategory(user, name, emoji, color, newId, now, maxLength).value.categories)
  {
    var cs := AddCategory(user, name, emoji, color, newId, now, maxLength).value.categories;
    if UniqueCategoryIds(user.categories) && newId !in CategoryIds(user.categories) {
      forall i, j | 0 <= i < j < |cs| ensures cs[i].id != cs[j].id {
        if j == |user.categories| {
          assert CategoryIds(user.categories)[i] == cs[i].id;
        }
      }
    }
  }

  // ---------------------------------------------------------------------
  // Favourites
  // ---------------------------------------------------------------------

  /** `handleAddToFavorites`: the category's id is toggled in the favourites
      and that category (every one with its id) gets a fresh `lastSave`. */
  function ToggleFavorite(user: User, category: Category, now: int): (u: User)
    ensures u == user.(favoriteCategories := u.favoriteCategories, categories := u.categories)
  {
    user.(favoriteCategories := Seqs.Toggle(user.favoriteCategories, category.id),
          categories := seq(|user.categories|, i requires 0 <= i < |user.categories| =>
            if user.categories[i].id == category.id then user.categories[i].(lastSave := Some(now))
            else user.categories[i]))
  }

  /** The toggle flips the membership of the id and of no other; only the
      toggled category's `lastSave` changes, and it becomes now. */
  lemma ToggleFavoriteEffect(user: User, category: Category, now: int)
    ensures var u := ToggleFavorite(user, category, now);
            (category.id in u.favoriteCategories <==> category.id !in user.favoriteCategories) &&
            (forall f :: f != category.id ==> (f in u.favoriteCategories <==> f in user.favoriteCategories)) &&
            |u.categories| == |user.categories| &&
            forall i :: 0 <= i < |u.categories| ==>
              u.categories[i].(lastSave := user.categories[i].lastSave) == user.categories[i] &&
              (u.categories[i].lastSave != user.categories[i].lastSave ==> user.categories[i].id == category.id) &&
              (user.categories[i].id == category.id ==> u.categories[i].lastSave == Some(now))
  {
  }

  /** Toggling twice restores the favourites' membership, and the list itself
      when the id was not a favourite. */
  lemma ToggleFavoriteTwice(user: User, category: Category, now: int, later: int)
    ensures var u := ToggleFavorite(ToggleFavorite(user, category, now), category, later);
            (forall f :: f in u.favoriteCategories <==> f in user.favoriteCategories) &&
            (category.id !in user.favoriteCategories ==> u.favoriteCategories == user.favoriteCategories)
  {
    Seqs.ToggleTwice(user.favoriteCategories, category.id);
  }
}
