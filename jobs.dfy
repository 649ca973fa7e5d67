/** The jobs table: a job posting as the store returns it (`SELECT *`,
    `RETURNING *`), and the table itself, which assigns identifiers and
    creation times on insert. */
module Jobs {

  datatype Job = Job(
    id: nat,
    title: string,
    company: string,
    location: string,
    jobType: string,
    description: string,
    createdAt: string)

  /** The rows of the jobs table in insertion order; `nextId` is the serial
      counter the store draws identifiers from. */
  class JobTable {
    var rows: seq<Job>
    var nextId: nat

    /** Identifiers are below the counter and increase along the table, so
        no two rows share one. */
    ghost predicate Valid()
      reads this
    {
      (forall i :: 0 <= i < |rows| ==> rows[i].id < nextId) &&
      (forall i, j :: 0 <= i < j < |rows| ==> rows[i].id < rows[j].id)
    }

    constructor ()
      ensures Valid() && rows == []
    {
      rows := [];
      nextId := 1;
    }

    /** `INSERT INTO jobs (title, company, location, job_type, description)
        ... RETURNING *`; `now` is the store's clock. */
    method Insert(title: string, company: string, location: string, jobType: string,
                  description: string, now: string) returns (row: Job)
      requires Valid()
      modifies this
      ensures Valid()
      ensures row == Job(old(nextId), title, company, location, jobType, description, now)
      ensures rows == old(rows) + [row]
      ensures forall j :: j in old(rows) ==> j.id != row.id
    {
      row := Job(nextId, title, company, location, jobType, description, now);
      rows := rows + [row];
      nextId := nextId + 1;
    }
  }
}
