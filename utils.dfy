/** convex/_utils.ts: resolving the caller's identity to a user document and
    summarising a message by its type. */
module Utils {
  import opened Schema
  import opened Docs

  /** The users whose external-auth id is `clerkId` (the `by_clerkId` index). */
  function UsersWithClerkId(users: Table<User>, clerkId: string): Table<User>
  {
    Filter(users, HasClerkId(clerkId))
  }

  function HasClerkId(clerkId: string): Doc<User> -> bool
  {
    (u: Doc<User>) => u.val.clerkId == clerkId
  }

  /** `getUserByClerkId`: the one user with that external-auth id, `None`
      when there is none, and the `.unique()` failure when there are several. */
  function UserByClerkId(users: Table<User>, clerkId: string): (r: Result<Option<Doc<User>>>)
    ensures r.Ok? && r.value.Some? ==> r.value.value in users && r.value.value.val.clerkId == clerkId
    ensures r.Ok? && r.value.Some? ==>
              forall u | u in users && u.val.clerkId == clerkId :: u == r.value.value
    ensures r == Ok(None) <==> forall u | u in users :: u.val.clerkId != clerkId
    ensures r.Err? <==> exists i, j | 0 <= i < j < |users| ::
                          users[i].val.clerkId == clerkId && users[j].val.clerkId == clerkId
    ensures r.Err? ==> r.error == NotUnique
  {
    FilterTwo(users, HasClerkId(clerkId));
    FilterMembers(users, HasClerkId(clerkId));
    Unique(UsersWithClerkId(users, clerkId))
  }

  /** `getAuthenticatedUser`: the user the caller's identity subject names.
      `identity` is the subject of the caller's session, `None` without one. */
  function AuthenticatedUser(users: Table<User>, identity: Option<string>): (r: Result<Doc<User>>)
    ensures identity.None? ==> r == Err(ConvexError("Unauthorized"))
    ensures identity.Some? && (forall u | u in users :: u.val.clerkId != identity.value) ==>
              r == Err(ConvexError("User not found"))
    ensures r.Ok? ==> identity.Some? && r.value in users && r.value.val.clerkId == identity.value
    ensures r.Ok? ==> forall u | u in users && u.val.clerkId == identity.value :: u == r.value
    ensures identity.Some? && (exists u | u in users :: u.val.clerkId == identity.value) ==>
              (r.Ok? || r.error == NotUnique)
  {
    if identity.None? then Err(ConvexError("Unauthorized"))
    else
      var found :- UserByClerkId(users, identity.value);
      if found.None? then Err(ConvexError("User not found")) else Ok(found.value)
  }

  /** What `getMessagesContent` gives back: the message's own content, or
      the fixed label shown for every non-text message. */
  datatype Preview = Verbatim(content: seq<string>) | Label(text: string)

  const NonTextLabel: string := "[Non-text]"

  /** `getMessagesContent`: text messages show their content unchanged;
      every other type shows the fixed label. */
  function MessagesContent(kind: string, content: seq<string>): (r: Preview)
    ensures kind == "text" <==> r == Verbatim(content)
    ensures kind != "text" <==> r == Label(NonTextLabel)
  {
    match kind
    case "text" => Verbatim(content)
    case _ => Label(NonTextLabel)
  }
}
