/**
 * POST of app/api/courses/route.ts: create a course, in state OPEN, from
 * the subject, the professor and the two numbers of `startTime.split(":")`.
 * The route itself validates nothing; the admin form applies
 * CreateCourseSchema before sending.
 */
module CoursesRoute {
  import opened Options
  import opened Database
  import opened Clock

  /** `createFails` stands for the store raising an error on the insert. */
  method Post(db: Store, subject: string, professor: string, hours: int, minutes: int, createFails: bool)
    returns (r: Result<nat, ApiError>)
    requires db.Valid()
    modifies db
    ensures db.Valid()
    ensures createFails <==> r.Err?
    ensures r.Err? ==> r.error == ServerError && unchanged(db)
    ensures r.Ok? ==>
      && r.value == |old(db.courses)|
      && db.courses == old(db.courses) + [Course(subject, professor, TimeOfDay(hours, minutes), Open, None)]
      && db.users == old(db.users) && db.bets == old(db.bets)
      && db.inventory == old(db.inventory) && db.badges == old(db.badges)
  {
    var scheduled := TimeOfDay(hours, minutes);
    if createFails {
      return Err(ServerError);
    }
    db.courses := db.courses + [Course(subject, professor, scheduled, Open, None)];
    r := Ok(|db.courses| - 1);
  }
}
