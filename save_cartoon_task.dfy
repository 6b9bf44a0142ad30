/** `SaveCartoonTask`: adds a cartoon unless one with its title exists. */
module SaveCartoon {
  import opened Entities
  import opened Tables
  import opened Queries
  import opened Store
  import opened CartoonData

  const Saved: string := "Cartoon saved successfully."
  const AlreadyExists: string := "The cartoon already exists."

  class SaveCartoonTask {
    const cartoonName: string
    const cartoonDescription: string
    var successful: bool

    constructor (cartoonName: string, cartoonDescription: string)
      ensures this.cartoonName == cartoonName && this.cartoonDescription == cartoonDescription
      ensures !successful
    {
      this.cartoonName := cartoonName;
      this.cartoonDescription := cartoonDescription;
      successful := false;
    }

    /** The cartoon the task asks to store; its key is generated on insert. */
    function NewCartoon(): Cartoon {
      Cartoon(0, cartoonName, cartoonDescription)
    }

    /** The message shown when the task has finished. */
    function Message(): string
      reads this
    {
      if successful then Saved else AlreadyExists
    }

    /** `call`: a cartoon found under the title blocks the add; otherwise
        the outcome of `addCartoon` is the task's outcome. A failed lookup
        reads as "not found", so the add goes ahead. */
    method Call(db: Catalogue, findFault: bool, addFault: bool)
      requires db.Valid()
      modifies this, db
      ensures db.Valid()
      ensures var found := !findFault && |CartoonsTitled(old(db.cartoons.rows), cartoonName)| == 1;
              successful <==> !found && !addFault
      ensures successful ==> db.Snapshot() == old(db.Snapshot()).(cartoons := Persist(old(db.cartoons), NewCartoon(), WithCartoonKey))
      ensures !successful ==> db.Snapshot() == old(db.Snapshot()) && Message() == AlreadyExists
      ensures successful ==> Message() == Saved
      ensures !findFault && TitlesUnique(old(db.cartoons.rows)) ==> TitlesUnique(db.cartoons.rows)
      ensures !findFault && successful && TitlesUnique(old(db.cartoons.rows)) ==>
                UniqueResult(CartoonsTitled(db.cartoons.rows, cartoonName)) == Some(NewCartoon().(cartoonId := old(db.cartoons.next)))
    {
      ghost var before := db.cartoons;
      var cartoon := FindCartoon(db, cartoonName, findFault);
      if cartoon.Some? {
        successful := false;
      } else {
        if !findFault && TitlesUnique(before.rows) {
          UniqueTitlesMatchAtMostOnce(before.rows, cartoonName);
          NoMemberMeansEmpty(CartoonsTitled(before.rows, cartoonName));
          AddedCartoonIsFound(before, NewCartoon());
          GuardedAddKeepsTitlesUnique(before.rows, NewCartoon().(cartoonId := before.next));
        }
        successful := AddCartoon(db, NewCartoon(), addFault);
      }
    }
  }
}
