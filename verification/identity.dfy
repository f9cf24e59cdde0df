/** Identity resolution as the inventory, product and chart services each do it:
    forward the `auth-token` header to the user service's `/user_id` route and turn
    its answer into the caller's identity triple or an error message. The user
    service's answer is an input; `UserService.UserId` computes what it would be. */
module Identity {
  import opened Common

  /** The identity triple the user service answers with. */
  datatype Who = Who(userId: Id, username: Option<string>, email: Option<string>)

  /** The user service's answer to `/user_id`, or the transport failure instead. */
  datatype UserReply = UserAnswer(status: int, who: Who) | UserUnreachable(reason: string)

  /** The part of a request every protected handler starts from. */
  datatype Caller = Caller(header: Option<string>, reply: UserReply)

  const TokenMissing: string := "Token is missing"
  const TokenInvalid: string := "Invalid token"
  const UserNotFound: string := "User not found or unauthorized"
  const TransportPrefix: string := "Error occurred: "

  /** Every failure message resolution can produce; the handlers answer each with 401. */
  predicate IsResolutionError(msg: string) {
    msg == TokenMissing || msg == TokenInvalid || msg == UserNotFound
    || (|TransportPrefix| <= |msg| && msg[..|TransportPrefix|] == TransportPrefix)
  }

  function Resolve(c: Caller): (r: Result<Who, string>)
    ensures r.Success? <==> HeaderPresent(c.header) && c.reply.UserAnswer? && c.reply.status == OK
    ensures r.Success? ==> r.value == c.reply.who
    ensures !HeaderPresent(c.header) ==> r == Failure(TokenMissing)
    ensures HeaderPresent(c.header) && c.reply.UserAnswer? && c.reply.status == Unauthorized
            ==> r == Failure(TokenInvalid)
    ensures HeaderPresent(c.header) && c.reply.UserAnswer? && c.reply.status !in {OK, Unauthorized}
            ==> r == Failure(UserNotFound)
    ensures r.Failure? ==> IsResolutionError(r.error)
  {
    if !HeaderPresent(c.header) then Failure(TokenMissing)
    else match c.reply
      case UserUnreachable(reason) => Failure(TransportPrefix + reason)
      case UserAnswer(status, who) =>
        if status == OK then Success(who)
        else if status == Unauthorized then Failure(TokenInvalid)
        else Failure(UserNotFound)
  }
}
