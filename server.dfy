/**
 * The process-wide store and the route handlers that change it. `Db.data` is lowdb's
 * `db.data`; reads and writes of db.json are no-ops on this in-memory snapshot.
 * Each handler is one atomic step.
 */
module Server {
  import opened Wrappers
  import opened Links
  import opened Accounts

  /** The persisted document: two named collections. */
  datatype Snapshot = Snapshot(users_table: seq<User>, links_table: seq<LinkRecord>)

  /** The default structure installed when no data exists yet. */
  const EMPTY_DATA := Snapshot([], [])

  class Db {
    var data: Snapshot

    /** The invariants the handlers keep: unique slugs and unique usernames. */
    predicate Valid()
      reads this
    {
      SlugsUnique(data.links_table) && UsernamesUnique(data.users_table)
    }

    /**
     * Opening the store and running initDb: `stored` is what db.read() found in db.json
     * (None: no file or no data). Existing data is kept, otherwise the empty default is used.
     */
    constructor (stored: Option<Snapshot>)
      ensures stored.Some? ==> data == stored.value
      ensures stored.None? ==> data.users_table == [] && data.links_table == [] && Valid()
    {
      match stored
      case Some(s) => data := s;
      case None => data := EMPTY_DATA;
    }

    /** GET `/:urlCode`: count a click on the first record with this slug and return its URL. */
    method Resolve(urlCode: string) returns (target: Option<string>)
      modifies this
      ensures Resolution(target, data.links_table) == ResolveTable(old(data.links_table), urlCode)
      ensures data.users_table == old(data.users_table)
      ensures old(Valid()) ==> Valid()
    {
      var found := FindBySlug(data.links_table, urlCode);
      if found.Some? {
        var theLink := data.links_table[found.value];
        var clicks := match theLink.click_count case Some(n) => n case None => 0;
        var updated := theLink.(click_count := Some(clicks + 1));
        data := data.(links_table := data.links_table[found.value := updated]);
        target := Some(theLink.original_url);
      } else {
        target := None;
      }
    }

    /**
     * POST `/dashboard`: normalize the URL, return the slug of a record that already has it,
     * or draw slugs until one is unused and append a new record. `draws` are the values
     * nanoid(5) returns; `id` and `now` stand for nanoid() and the ISO timestamp.
     */
    method Shorten(url: string, draws: seq<Slug>, id: string, now: string) returns (slug: string)
      requires CanShorten(data.links_table, url, draws)
      modifies this
      ensures Shortening(slug, data.links_table) == ShortenTable(old(data.links_table), url, draws, id, now)
      ensures data.users_table == old(data.users_table)
      ensures old(Valid()) ==> Valid()
    {
      var u := url;
      if !(HTTP_PREFIX <= u) && !(HTTPS_PREFIX <= u) {
        u := HTTP_PREFIX + u;
      }
      assert u == Normalize(url);
      var found := FindByUrl(data.links_table, u);
      if found.Some? {
        slug := data.links_table[found.value].short_slug;
      } else {
        var text := AllocateSlug(data.links_table, draws);
        var newLink := LinkRecord(id, u, text, None, now, None, Some(0), None);
        data := data.(links_table := data.links_table + [newLink]);
        slug := text;
      }
    }

    /**
     * POST `/register`: refuse a taken username; otherwise store the account with the hash
     * bcrypt delivered (`hashed`, None when bcrypt reported an error, which stores nothing).
     */
    method Register(username: string, hashed: Option<string>, id: string, now: string) returns (outcome: RegisterOutcome)
      modifies this
      ensures Registration(outcome, data.users_table) == RegisterTable(old(data.users_table), username, hashed, id, now)
      ensures data.links_table == old(data.links_table)
      ensures old(Valid()) ==> Valid()
    {
      var userExists := FindUser(data.users_table, username);
      if userExists.Some? {
        outcome := UserExists;
      } else if hashed.None? {
        outcome := HashFailed;
      } else {
        var newUser := User(id, username, hashed.value, now);
        data := data.(users_table := data.users_table + [newUser]);
        outcome := Registered;
      }
    }
  }

  /**
   * An example run on an empty store: registering "example.com" yields the drawn slug,
   * which resolves to "http://example.com" twice with two clicks counted, and registering
   * the URL again returns the same slug without adding a record.
   */
  method Example() returns (slug: string, first: Option<string>, second: Option<string>, again: string, clicks: nat, records: nat)
    ensures slug == "aB3xZ" && again == slug
    ensures first == Some("http://example.com") && second == first
    ensures clicks == 2 && records == 1
  {
    var db := new Db(None);
    var draws: seq<Slug> := ["aB3xZ"];
    assert Slugs(db.data.links_table) == [];
    assert draws[0] !in Slugs(db.data.links_table);
    assert !HasScheme("example.com") by {
      assert "example.com"[0] == 'e' && HTTP_PREFIX[0] == 'h' && HTTPS_PREFIX[0] == 'h';
    }
    slug := db.Shorten("example.com", draws, "id1", "t1");
    assert slug == "aB3xZ" && |db.data.links_table| == 1;
    assert db.data.links_table[0].original_url == "http://example.com";
    assert Slugs(db.data.links_table) == [slug];
    first := db.Resolve(slug);
    assert ClickCount(db.data.links_table[0]) == 1;
    second := db.Resolve(slug);
    again := db.Shorten("example.com", [], "id2", "t2");
    clicks := ClickCount(db.data.links_table[0]);
    records := |db.data.links_table|;
  }
}
