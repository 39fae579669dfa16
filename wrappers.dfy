/** Optional values, results, and the HTTP exceptions the services throw. */
module Wrappers {

  datatype Option<+T> = None | Some(value: T)

  datatype Result<+R, +E> = Ok(value: R) | Err(error: E)

  /** The NestJS exceptions raised by the services, plus a failure raised by the database itself. */
  datatype HttpError =
    | NotFound(message: string)      // NotFoundException
    | Unauthorized                   // UnauthorizedException
    | Forbidden                      // ForbiddenException
    | BadRequest(message: string)    // BadRequestException
    | QueryFailed                    // a statement the database refuses (constraint violation, negative OFFSET)
}
