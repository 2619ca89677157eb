/**
 * app/views.py: the request handlers over the two tables. Handlers receive the
 * already-parsed JSON fields (`None` for an absent field) and answer with a
 * status code and message; the ones that write change the `Library` in place.
 */
module Views {
  import opened Wrappers
  import opened Credentials
  import opened Models
  import opened PyStrings
  import opened Auth

  /** A `{"message": ...}` answer with its status code. */
  datatype Reply = Reply(status: int, message: string)

  /** The answer of `login`: on success it also carries the token's claims. */
  datatype LoginReply = LoginReply(status: int, message: string, token: Option<Claims>)

  /** An entry of the `GET /books` array. */
  datatype BookView = BookView(title: string, author: string, publishedYear: Option<int>)

  /** An entry of the `GET /members` array. */
  datatype MemberView = MemberView(email: string)

  /** The protected routes, with the fields each handler reads from the request. */
  datatype Request =
    | PostBooks(book: Book)
    | GetBooks
    | PutBooks(id: int, title: Option<string>, author: Option<string>, publishedYear: Option<int>)
    | DeleteBooks(id: int)
    | PostMembers(email: Option<string>, password: Option<string>)
    | GetMembers
    | PutMembers(id: int, email: Option<string>, password: Option<string>)
    | DeleteMembers(id: int)

  /** What a protected route answers: a message, or one of the two arrays. */
  datatype Response =
    | Message(reply: Reply)
    | Books(books: seq<BookView>)
    | Members(members: seq<MemberView>)

  /** Python truthiness of an optional string field: present and not empty. */
  predicate Present(field: Option<string>)
  {
    field.Some? && field.value != []
  }

  /** The password stored by `add_member` when the request omits one. */
  const DefaultPassword: string := "defaultpassword"

  function ViewOfBook(b: Book): BookView
  {
    BookView(b.title, b.author, b.publishedYear)
  }

  /** `get_books`: one entry per stored book, in store order, without ids. */
  function ListBooks(books: map<int, Book>): (r: seq<BookView>)
    ensures |r| == |books|
    ensures forall i :: 0 <= i < |r| ==> r[i] == ViewOfBook(books[Ascending(books.Keys)[i]])
    ensures forall id :: id in books ==> ViewOfBook(books[id]) in r
  {
    var ids := Ascending(books.Keys);
    var r := seq(|ids|, i requires 0 <= i < |ids| => ViewOfBook(books[ids[i]]));
    BooksListed(books, ids, r);
    r
  }

  lemma BooksListed(books: map<int, Book>, ids: seq<int>, r: seq<BookView>)
    requires forall k :: k in books <==> k in ids
    requires |r| == |ids| && forall i :: 0 <= i < |ids| ==> ids[i] in books && r[i] == ViewOfBook(books[ids[i]])
    ensures forall id :: id in books ==> ViewOfBook(books[id]) in r
  {
    forall id | id in books ensures ViewOfBook(books[id]) in r {
      var i :| 0 <= i < |ids| && ids[i] == id;
      assert r[i] == ViewOfBook(books[id]);
    }
  }

  /** `get_members`: the email of each stored member, in store order; never a password. */
  function ListMembers(members: map<int, Member>): (r: seq<MemberView>)
    ensures |r| == |members|
    ensures forall i :: 0 <= i < |r| ==> r[i] == MemberView(members[Ascending(members.Keys)[i]].email)
    ensures forall id :: id in members ==> MemberView(members[id].email) in r
  {
    var ids := Ascending(members.Keys);
    var r := seq(|ids|, i requires 0 <= i < |ids| => MemberView(members[ids[i]].email));
    MembersListed(members, ids, r);
    r
  }

  lemma MembersListed(members: map<int, Member>, ids: seq<int>, r: seq<MemberView>)
    requires forall k :: k in members <==> k in ids
    requires |r| == |ids| && forall i :: 0 <= i < |ids| ==> ids[i] in members && r[i] == MemberView(members[ids[i]].email)
    ensures forall id :: id in members ==> MemberView(members[id].email) in r
  {
    forall id | id in members ensures MemberView(members[id].email) in r {
      var i :| 0 <= i < |ids| && ids[i] == id;
      assert r[i] == MemberView(members[id].email);
    }
  }

  /**
   * `login`: find the member by email, verify the password against its hash,
   * and issue a token for the member's id. Reads the store, never writes it.
   * A found member with no password in the request makes `check_password_hash`
   * raise, which the source does not handle.
   */
  function Login(members: map<int, Member>, email: Option<string>, password: Option<string>,
                 now: int): (r: LoginReply)
    requires FindByEmail(members, email).Some? ==> password.Some?
    ensures r.status == 404 <==> email.None? || forall id :: id in members ==> members[id].email != email.value
    ensures var found := FindByEmail(members, email);
      r.status == 401 <==> found.Some? && !Check(members[found.value].password, password.value)
    ensures var found := FindByEmail(members, email);
      r.status == 200 <==>
        && found.Some? && Check(members[found.value].password, password.value)
        && r.token == Some(CreateToken(found.value, now))
    ensures r.status in {200, 401, 404}
    ensures r.status != 200 ==> r.token == None
    ensures r.status == 404 ==> r.message == "User not found."
    ensures r.status == 401 ==> r.message == "Invalid credentials"
    ensures r.status == 200 ==> r.message == "Login successful"
  {
    match FindByEmail(members, email)
    case None => LoginReply(404, "User not found.", None)
    case Some(id) =>
      if !Check(members[id].password, password.value) then LoginReply(401, "Invalid credentials", None)
      else LoginReply(200, "Login successful", Some(CreateToken(id, now)))
  }

  /*
   * What each handler does to its table, as a relation between the table
   * before and after the request and the reply. Every error path leaves the
   * table as it was.
   */

  /** POST /books: the book is stored under `id`, an id no book had. */
  ghost predicate BookAdded(before: map<int, Book>, after: map<int, Book>, book: Book, id: int, r: Reply)
  {
    && r == Reply(201, "Book added successfully!")
    && id !in before
    && after == before[id := book]
  }

  /**
   * PUT /books/<id>: an unknown id is answered 404; otherwise all three
   * fields are replaced, an omitted published_year becoming null.
   */
  ghost predicate BookUpdated(before: map<int, Book>, after: map<int, Book>, id: int,
                              title: Option<string>, author: Option<string>,
                              publishedYear: Option<int>, r: Reply)
  {
    if id !in before then r == Reply(404, "Book not found") && after == before
    else
      && title.Some? && author.Some?
      && r == Reply(200, "Book updated successfully!")
      && after == before[id := Book(title.value, author.value, publishedYear)]
  }

  /** DELETE /books/<id>: an unknown id is answered 404; otherwise exactly that book goes. */
  ghost predicate BookDeleted(before: map<int, Book>, after: map<int, Book>, id: int, r: Reply)
  {
    if id !in before then r == Reply(404, "Book not found") && after == before
    else r == Reply(200, "Book deleted successfully!") && after == before - {id}
  }

  /**
   * POST /members: a missing email is answered 400 before the duplicate
   * check; a taken email is answered 400; otherwise the member is stored under
   * `id` with the hash of the given password, or of the placeholder when the
   * request has none.
   */
  ghost predicate MemberAdded(before: map<int, Member>, after: map<int, Member>,
                              email: Option<string>, password: Option<string>, salt: nat,
                              id: int, r: Reply)
  {
    if !Present(email) then r == Reply(400, "Email is required.") && after == before
    else if FindByEmail(before, email).Some? then
      r == Reply(400, "A member with this email already exists.") && after == before
    else
      && r == Reply(201, "Member added successfully!")
      && id !in before
      && after == before[id := Member(email.value, Hash(salt, password.GetOr(DefaultPassword)))]
  }

  /**
   * PUT /members/<id>: both fields are validated before the lookup; an
   * unknown id is answered 404; an email held by another member breaks the
   * UNIQUE constraint at commit (500, rolled back); otherwise email and
   * password hash are both replaced.
   */
  ghost predicate MemberUpdated(before: map<int, Member>, after: map<int, Member>, id: int,
                                email: Option<string>, password: Option<string>, salt: nat, r: Reply)
  {
    if !Present(email) || !Present(password) then
      r == Reply(400, "Email and password are required.") && after == before
    else if id !in before then r == Reply(404, "Member not found") && after == before
    else if EmailTakenByOther(before, id, email.value) then
      r == Reply(500, "Internal Server Error") && after == before
    else
      && r == Reply(200, "Member updated successfully!")
      && after == before[id := Member(email.value, Hash(salt, password.value))]
  }

  /** DELETE /members/<id>: an unknown id is answered 404; otherwise exactly that member goes. */
  ghost predicate MemberDeleted(before: map<int, Member>, after: map<int, Member>, id: int, r: Reply)
  {
    if id !in before then r == Reply(404, "Member not found") && after == before
    else r == Reply(200, "Member deleted successfully!") && after == before - {id}
  }

  /** The store: both tables, and where the next fresh ids come from. */
  class Library {
    var books: map<int, Book>
    var members: map<int, Member>
    var nextBookId: int
    var nextMemberId: int

    /** Ids below the counters, and the UNIQUE constraint on email. */
    ghost predicate Valid()
      reads this
    {
      && (forall id :: id in books ==> id < nextBookId)
      && (forall id :: id in members ==> id < nextMemberId)
      && EmailsUnique(members)
    }

    constructor ()
      ensures Valid() && books == map[] && members == map[]
    {
      books, members := map[], map[];
      nextBookId, nextMemberId := 1, 1;
    }

    /**
     * POST /signup: both fields are validated first, then the email is looked
     * up; a new member gets a fresh id and the hash of the password.
     */
    method Signup(email: Option<string>, password: Option<string>, salt: nat)
      returns (r: Reply, ghost id: int)
      requires Valid()
      modifies this
      ensures Valid() && books == old(books)
      ensures !Present(email) || !Present(password) ==>
                r == Reply(400, "Email and password are required.") && members == old(members)
      ensures Present(email) && Present(password) && FindByEmail(old(members), email).Some? ==>
                r == Reply(400, "Email already in use.") && members == old(members)
      ensures Present(email) && Present(password) && FindByEmail(old(members), email).None? ==>
                && r == Reply(201, "User created successfully!")
                && id !in old(members)
                && members == old(members)[id := Member(email.value, Hash(salt, password.value))]
    {
      var newId := nextMemberId;
      id := newId;
      if !Present(email) || !Present(password) {
        return Reply(400, "Email and password are required."), id;
      }
      if FindByEmail(members, email).Some? {
        return Reply(400, "Email already in use."), id;
      }
      InsertKeepsEmailsUnique(members, newId, Member(email.value, Hash(salt, password.value)));
      members := members[newId := Member(email.value, Hash(salt, password.value))];
      nextMemberId := nextMemberId + 1;
      r := Reply(201, "User created successfully!");
    }

    /** POST /books */
    method AddBook(book: Book) returns (r: Reply, ghost id: int)
      requires Valid()
      modifies this
      ensures Valid() && members == old(members)
      ensures BookAdded(old(books), books, book, id, r)
    {
      var newId := nextBookId;
      id := newId;
      books := books[newId := book];
      nextBookId := nextBookId + 1;
      r := Reply(201, "Book added successfully!");
    }

    /**
     * PUT /books/<id>. The lookup comes first; the body's title and author are
     * read only for a book that exists (reading a missing one raises).
     */
    method UpdateBook(id: int, title: Option<string>, author: Option<string>, publishedYear: Option<int>)
      returns (r: Reply)
      requires Valid()
      requires id in books ==> title.Some? && author.Some?
      modifies this
      ensures Valid() && members == old(members)
      ensures BookUpdated(old(books), books, id, title, author, publishedYear, r)
    {
      if id !in books {
        return Reply(404, "Book not found");
      }
      books := books[id := Book(title.value, author.value, publishedYear)];
      r := Reply(200, "Book updated successfully!");
    }

    /** DELETE /books/<id> */
    method DeleteBook(id: int) returns (r: Reply)
      requires Valid()
      modifies this
      ensures Valid() && members == old(members)
      ensures BookDeleted(old(books), books, id, r)
    {
      if id !in books {
        return Reply(404, "Book not found");
      }
      books := books - {id};
      r := Reply(200, "Book deleted successfully!");
    }

    /** POST /members */
    method AddMember(email: Option<string>, password: Option<string>, salt: nat)
      returns (r: Reply, ghost id: int)
      requires Valid()
      modifies this
      ensures Valid() && books == old(books)
      ensures MemberAdded(old(members), members, email, password, salt, id, r)
    {
      var newId := nextMemberId;
      id := newId;
      if !Present(email) {
        return Reply(400, "Email is required."), id;
      }
      if FindByEmail(members, email).Some? {
        return Reply(400, "A member with this email already exists."), id;
      }
      var member := Member(email.value, Hash(salt, password.GetOr(DefaultPassword)));
      InsertKeepsEmailsUnique(members, newId, member);
      members := members[newId := member];
      nextMemberId := nextMemberId + 1;
      r := Reply(201, "Member added successfully!");
    }

    /** PUT /members/<id> */
    method UpdateMember(id: int, email: Option<string>, password: Option<string>, salt: nat)
      returns (r: Reply)
      requires Valid()
      modifies this
      ensures Valid() && books == old(books)
      ensures MemberUpdated(old(members), members, id, email, password, salt, r)
    {
      if !Present(email) || !Present(password) {
        return Reply(400, "Email and password are required.");
      }
      if id !in members {
        return Reply(404, "Member not found");
      }
      if EmailTakenByOther(members, id, email.value) {
        return Reply(500, "Internal Server Error");
      }
      var member := Member(email.value, Hash(salt, password.value));
      ReplaceKeepsEmailsUnique(members, id, member);
      members := members[id := member];
      r := Reply(200, "Member updated successfully!");
    }

    /** DELETE /members/<id> */
    method DeleteMember(id: int) returns (r: Reply)
      requires Valid()
      modifies this
      ensures Valid() && books == old(books)
      ensures MemberDeleted(old(members), members, id, r)
    {
      if id !in members {
        return Reply(404, "Member not found");
      }
      members := members - {id};
      r := Reply(200, "Member deleted successfully!");
    }

    /**
     * A protected route: `token_required` runs first, against the members as
     * they are when the request arrives; on a rejection the handler does not
     * run and nothing changes, on admission the route's handler runs.
     */
    method Serve(header: Option<string>, decode: string -> DecodeOutcome, request: Request, salt: nat)
      returns (response: Response, ghost id: int)
      requires Valid()
      requires request.PutBooks? && request.id in books && TokenRequired(header, decode, members).Admit? ==>
                 request.title.Some? && request.author.Some?
      modifies this
      ensures Valid()
      ensures var gate := TokenRequired(header, decode, old(members));
        gate.Reject? ==> response == Message(Reply(gate.status, gate.message))
                         && books == old(books) && members == old(members)
      ensures TokenRequired(header, decode, old(members)).Admit? ==>
        match request
        case PostBooks(book) =>
          response.Message? && BookAdded(old(books), books, book, id, response.reply)
          && members == old(members)
        case GetBooks =>
          response == Books(ListBooks(books)) && books == old(books) && members == old(members)
        case PutBooks(bookId, title, author, year) =>
          response.Message? && BookUpdated(old(books), books, bookId, title, author, year, response.reply)
          && members == old(members)
        case DeleteBooks(bookId) =>
          response.Message? && BookDeleted(old(books), books, bookId, response.reply)
          && members == old(members)
        case PostMembers(email, password) =>
          response.Message? && MemberAdded(old(members), members, email, password, salt, id, response.reply)
          && books == old(books)
        case GetMembers =>
          response == Members(ListMembers(members)) && books == old(books) && members == old(members)
        case PutMembers(memberId, email, password) =>
          response.Message? && MemberUpdated(old(members), members, memberId, email, password, salt, response.reply)
          && books == old(books)
        case DeleteMembers(memberId) =>
          response.Message? && MemberDeleted(old(members), members, memberId, response.reply)
          && books == old(books)
    {
      id := 0;
      var gate := TokenRequired(header, decode, members);
      if gate.Reject? {
        return Message(Reply(gate.status, gate.message)), id;
      }
      match request {
        case PostBooks(book) =>
          var r;
          r, id := AddBook(book);
          response := Message(r);
        case GetBooks =>
          response := Books(ListBooks(books));
        case PutBooks(bookId, title, author, year) =>
          var r := UpdateBook(bookId, title, author, year);
          response := Message(r);
        case DeleteBooks(bookId) =>
          var r := DeleteBook(bookId);
          response := Message(r);
        case PostMembers(email, password) =>
          var r;
          r, id := AddMember(email, password, salt);
          response := Message(r);
        case GetMembers =>
          response := Members(ListMembers(members));
        case PutMembers(memberId, email, password) =>
          var r := UpdateMember(memberId, email, password, salt);
          response := Message(r);
        case DeleteMembers(memberId) =>
          var r := DeleteMember(memberId);
          response := Message(r);
      }
    }
  }

  /** After a successful signup the same credentials log in, and no other password does. */
  lemma SignupThenLogin(members: map<int, Member>, id: int, email: string, password: string,
                        salt: nat, now: int)
    requires EmailsUnique(members) && id !in members
    requires FindByEmail(members, Some(email)).None?
    ensures var after := members[id := Member(email, Hash(salt, password))];
      && Login(after, Some(email), Some(password), now)
           == LoginReply(200, "Login successful", Some(CreateToken(id, now)))
      && forall attempt :: attempt != password ==>
           Login(after, Some(email), Some(attempt), now) == LoginReply(401, "Invalid credentials", None)
  {
    var after := members[id := Member(email, Hash(salt, password))];
    InsertKeepsEmailsUnique(members, id, Member(email, Hash(salt, password)));
    FindUnique(after, id);
    forall attempt | true
      ensures Check(Hash(salt, password), attempt) <==> attempt == password
    {
      CheckHash(salt, password, attempt);
    }
  }

  /**
   * Signup, login, then a protected request: a token that the decoder maps
   * back to the login's claims, sent as `Bearer <token>`, admits the new member.
   */
  lemma SignupLoginAccess(members: map<int, Member>, id: int, email: string, password: string,
                          salt: nat, now: int, token: string, decode: string -> DecodeOutcome)
    requires EmailsUnique(members) && id !in members
    requires FindByEmail(members, Some(email)).None?
    requires IsField(token)
    requires decode(token) == Decoded(CreateToken(id, now).userId)
    ensures var after := members[id := Member(email, Hash(salt, password))];
      && Login(after, Some(email), Some(password), now).token == Some(CreateToken(id, now))
      && TokenRequired(Some("Bearer " + token), decode, after) == Admit(id, Member(email, Hash(salt, password)))
  {
    SignupThenLogin(members, id, email, password, salt, now);
    BearerTokenAdmits(token, decode, members[id := Member(email, Hash(salt, password))], id);
  }

  /**
   * A deleted book is gone and nothing else moved: every other book keeps its
   * record, and deleting the same id again is answered 404.
   */
  lemma DeletedBookNotFound(before: map<int, Book>, after: map<int, Book>, id: int)
    requires BookDeleted(before, after, id, Reply(200, "Book deleted successfully!"))
    ensures id in before && id !in after && |after| == |before| - 1
    ensures forall other :: other in before && other != id ==> other in after && after[other] == before[other]
    ensures forall other :: other in after ==> other in before
    ensures BookDeleted(after, after, id, Reply(404, "Book not found"))
  {
  }

  /**
   * A PUT /books/<id> without a token is answered 403 by the guard whatever
   * its body holds, even for a stored book and a body without title or author.
   */
  method RejectedPutChangesNothing(library: Library, decode: string -> DecodeOutcome, id: int)
    requires library.Valid() && id in library.books
    modifies library
  {
    var books := library.books;
    var response, _ := library.Serve(None, decode, PutBooks(id, None, None, None), 0);
    assert response == Message(Reply(403, "Token is missing!"));
    assert library.books == books;
  }

  /** A table holding one book lists exactly that book. */
  lemma ListOneBook(id: int, book: Book)
    ensures ListBooks(map[id := book]) == [ViewOfBook(book)]
  {
    assert map[id := book].Keys == {id};
    assert Ascending({id}) == [id];
  }

  /**
   * The walk-through of the API: sign up, log in, add a book with the token,
   * list the books.
   */
  method Walkthrough(now: int, salt: nat, token: string)
    requires IsField(token)
  {
    var library := new Library();
    var signedUp, id := library.Signup(Some("a@x.com"), Some("p"), salt);
    assert signedUp.status == 201;
    SignupThenLogin(map[], id, "a@x.com", "p", salt, now);
    var login := Login(library.members, Some("a@x.com"), Some("p"), now);
    assert login.status == 200 && login.token == Some(CreateToken(id, now));
    // a decoder that maps the issued token back to its claims
    var decode := (t: string) => if t == token then Decoded(login.token.value.userId) else Invalid;
    var header := Some("Bearer " + token);
    BearerTokenAdmits(token, decode, library.members, id);
    assert TokenRequired(header, decode, library.members).Admit?;
    var added, bookId := library.Serve(header, decode, PostBooks(Book("Dune", "Herbert", None)), salt);
    assert added == Message(Reply(201, "Book added successfully!"));
    assert library.books == map[bookId := Book("Dune", "Herbert", None)];
    ListOneBook(bookId, Book("Dune", "Herbert", None));
    assert TokenRequired(header, decode, library.members).Admit?;
    var listed, _ := library.Serve(header, decode, GetBooks, salt);
    assert listed == Books([BookView("Dune", "Herbert", None)]);
  }
}
