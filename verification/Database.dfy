/** Sessions: a cycle commits entirely or not at all. */
module Database {
  import opened Models

  class Database {
    var tables: Tables

    constructor (tables: Tables)
      ensures this.tables == tables
    {
      this.tables := tables;
    }
  }

  /** A session works on its own view of the tables; only Commit publishes it. */
  class Session {
    const db: Database
    var tables: Tables

    constructor (db: Database)
      ensures this.db == db && tables == db.tables
    {
      this.db := db;
      this.tables := db.tables;
    }

    method Commit()
      modifies db
      ensures db.tables == tables
    {
      db.tables := tables;
    }
  }
}
