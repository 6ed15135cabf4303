/** Shared vocabulary of the HTTP message layer: optional values, the failures
    the layer raises, and results that carry either a value or a failure. */
module Basics {

  datatype Option<+T> = None | Some(value: T)

  /** The exceptions the message layer lets escape to the connection loop.
      `BadRequest` is the server's own exception class; the others are the
      Python built-in exceptions that particular inputs provoke. */
  datatype Failure =
    | BadRequest(message: string)   // malformed request, answered with 400
    | Timeout                       // socket.timeout while receiving, answered with 408
    | IndexError                    // indexing an empty str, answered with 500
    | UnicodeDecodeError            // a received byte that is not text, answered with 500
    | ValueError                    // recv with a negative size, answered with 500
    | OverflowError                 // recv with a size beyond a C ssize_t, answered with 500

  datatype Result<+T> = Ok(value: T) | Err(error: Failure)

  /** Applies `f` to every element in order and collects the results; the
      first element on which `f` fails decides the failure, as a Python loop
      that raises on the first bad element does. */
  function MapAll<A, B>(f: A -> Result<B>, xs: seq<A>): (r: Result<seq<B>>)
    ensures r.Ok? <==> forall i :: 0 <= i < |xs| ==> f(xs[i]).Ok?
    ensures r.Ok? ==> |r.value| == |xs| && forall i :: 0 <= i < |xs| ==> f(xs[i]) == Ok(r.value[i])
    ensures r.Err? ==> exists i :: 0 <= i < |xs| && f(xs[i]) == Err(r.error) && forall j :: 0 <= j < i ==> f(xs[j]).Ok?
  {
    if xs == [] then Ok([])
    else
      var last := |xs| - 1;
      var init := xs[..last];
      assert forall i :: 0 <= i < last ==> init[i] == xs[i];
      match MapAll(f, init)
      case Err(e) => Err(e)
      case Ok(ys) =>
        match f(xs[last])
        case Err(e) => Err(e)
        case Ok(y) => Ok(ys + [y])
  }

  /** One more element handled by the loop that computes `MapAll`. */
  lemma MapAllSnoc<A, B>(f: A -> Result<B>, xs: seq<A>, i: nat, ys: seq<B>)
    requires i < |xs| && MapAll(f, xs[..i]) == Ok(ys)
    ensures f(xs[i]).Ok? ==> MapAll(f, xs[..i + 1]) == Ok(ys + [f(xs[i]).value])
    ensures f(xs[i]).Err? ==> MapAll(f, xs) == Err(f(xs[i]).error)
  {
    if f(xs[i]).Ok? {
      assert xs[..i + 1][..i] == xs[..i];
    } else {
      forall j | 0 <= j < i ensures f(xs[j]).Ok? {
        assert xs[..i][j] == xs[j];
      }
      var r := MapAll(f, xs);
      var k :| 0 <= k < |xs| && f(xs[k]) == Err(r.error) && forall j :: 0 <= j < k ==> f(xs[j]).Ok?;
      assert k == i;
    }
  }

  /** The first element on which `f` fails decides `MapAll`'s failure. */
  lemma MapAllFirstErr<A, B>(f: A -> Result<B>, xs: seq<A>, i: nat)
    requires i < |xs| && f(xs[i]).Err? && forall j :: 0 <= j < i ==> f(xs[j]).Ok?
    ensures MapAll(f, xs) == Err(f(xs[i]).error)
  {
    var r := MapAll(f, xs);
    var k :| 0 <= k < |xs| && f(xs[k]) == Err(r.error) && forall j :: 0 <= j < k ==> f(xs[j]).Ok?;
    assert k == i;
  }

  /** When `f` succeeds on every element, `MapAll` collects exactly its
      results. */
  lemma MapAllOk<A, B>(f: A -> Result<B>, xs: seq<A>, ys: seq<B>)
    requires |xs| == |ys| && forall i :: 0 <= i < |xs| ==> f(xs[i]) == Ok(ys[i])
    ensures MapAll(f, xs) == Ok(ys)
  {
    assert forall i :: 0 <= i < |xs| ==> f(xs[i]).Ok?;
    var r := MapAll(f, xs);
    assert r.Ok?;
    forall i | 0 <= i < |xs| ensures r.value[i] == ys[i] {
      assert f(xs[i]) == Ok(r.value[i]);
    }
    assert r.value == ys;
  }
}
