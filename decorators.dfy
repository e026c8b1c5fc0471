/** The role gates of users/decorators.py: `student_required` and
    `teacher_required` wrap a view and either call it with the same request
    and arguments, or raise PermissionDenied without calling it. */
module Decorators {
  import opened Catalog

  /** A request: the signed-in (or anonymous) user and the view's other
      arguments. */
  datatype Request<A> = Request(user: User, args: A)

  /** What a wrapped view gives: PermissionDenied, or the view's own
      response. */
  datatype Response<R> = PermissionDenied | Ran(response: R)

  /** `request.user.is_authenticated and request.user.role == role`; an
      anonymous user's role is never read. */
  predicate HasRole(u: User, role: Role) {
    u.authenticated && u.role == role
  }

  /** The wrapper both decorators build, for the role they demand. */
  function Gate<A(!new), R>(role: Role, view: Request<A> -> R): (wrapped: Request<A> -> Response<R>)
    ensures forall req :: wrapped(req).Ran? <==> HasRole(req.user, role)
    ensures forall req :: wrapped(req).Ran? ==> wrapped(req).response == view(req)
  {
    (req: Request<A>) => if HasRole(req.user, role) then Ran(view(req)) else PermissionDenied
  }

  /** `student_required`. */
  function StudentRequired<A(!new), R>(view: Request<A> -> R): (wrapped: Request<A> -> Response<R>)
    ensures forall req :: wrapped(req).Ran? <==> req.user.authenticated && req.user.role == Student
    ensures forall req :: wrapped(req).Ran? ==> wrapped(req).response == view(req)
  {
    Gate(Student, view)
  }

  /** `teacher_required`. */
  function TeacherRequired<A(!new), R>(view: Request<A> -> R): (wrapped: Request<A> -> Response<R>)
    ensures forall req :: wrapped(req).Ran? <==> req.user.authenticated && req.user.role == Teacher
    ensures forall req :: wrapped(req).Ran? ==> wrapped(req).response == view(req)
  {
    Gate(Teacher, view)
  }

  /** A refused request never reaches the view: its outcome is the same
      whatever the wrapped view would have done. */
  lemma DeniedIgnoresView<A(!new), R>(role: Role, v1: Request<A> -> R, v2: Request<A> -> R, req: Request<A>)
    requires !HasRole(req.user, role)
    ensures Gate(role, v1)(req) == Gate(role, v2)(req) == PermissionDenied
  {
  }

  /** No user passes both gates, and an administrator passes neither. */
  lemma GatesExclusive<A(!new), R>(view: Request<A> -> R, req: Request<A>)
    ensures !(StudentRequired(view)(req).Ran? && TeacherRequired(view)(req).Ran?)
    ensures req.user.role == Admin ==>
      StudentRequired(view)(req) == PermissionDenied && TeacherRequired(view)(req) == PermissionDenied
  {
  }
}
