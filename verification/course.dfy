/**
 The course record the dashboard displays. Its constructor in src/course.rs
 fetches the name over the network; here a course is the plain value that
 results, carrying the fields the dashboard reads.
 */
module Courses {
  import opened Term

  /** Seat counts as the registration page reports them; `remaining` is not recomputed. */
  datatype Enrollment = Enrollment(capacity: nat, actual: nat, remaining: nat)

  datatype Course = Course(
    crn: string,
    season: Season,
    name: string,
    classEnrollment: Enrollment,
    waitlistEnrollment: Enrollment)
}
