/** The fixed table of goal categories and the lookup that falls back to "general". */
module Categories {
  import opened Wrappers
  import Seqs

  datatype Category = Category(id: string, name: string, icon: string, color: string)

  /** The categories in display order; the last entry, "general", is the fallback. */
  const Table: seq<Category> := [
    Category("health", "Health & Fitness", "💪", "#ef4444"),
    Category("career", "Career", "💼", "#3b82f6"),
    Category("education", "Education", "📚", "#8b5cf6"),
    Category("finance", "Finance", "💰", "#10b981"),
    Category("relationships", "Relationships", "❤️", "#f472b6"),
    Category("hobbies", "Hobbies", "🎨", "#f59e0b"),
    Category("travel", "Travel", "✈️", "#06b6d4"),
    Category("personal", "Personal Growth", "🌟", "#6366f1"),
    Category("general", "General", "📝", "#6b7280")
  ]

  /** The entry used when no entry matches. */
  const Fallback: Category := Table[|Table| - 1]

  function HasCategoryId(id: string): Category -> bool {
    (c: Category) => c.id == id
  }

  /** `categories.find(c => c.id === id) || categories[categories.length - 1]`. */
  function CategoryById(id: string): (c: Category)
    ensures c in Table
    ensures (exists i :: 0 <= i < |Table| && Table[i].id == id) ==> c.id == id
    ensures (forall i :: 0 <= i < |Table| ==> Table[i].id != id) ==> c == Fallback && c.id == "general"
  {
    match Seqs.FirstIndex(Table, HasCategoryId(id))
    case Some(i) => Table[i]
    case None => Fallback
  }

  /** No two entries of the table share an id. */
  lemma IdsDistinct()
    ensures forall i, j :: 0 <= i < j < |Table| ==> Table[i].id != Table[j].id
  {
  }

  /** Because ids are distinct, looking up the id of any entry returns that very entry. */
  lemma LookupOfListedId(i: nat)
    requires i < |Table|
    ensures CategoryById(Table[i].id) == Table[i]
  {
    IdsDistinct();
  }

  /** Asking for "general" by name gives the same entry as the fallback for an unknown id. */
  lemma GeneralIsFallback(unknown: string)
    requires forall i :: 0 <= i < |Table| ==> Table[i].id != unknown
    ensures CategoryById("general") == CategoryById(unknown) == Fallback
  {
    LookupOfListedId(|Table| - 1);
  }
}
