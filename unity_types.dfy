/** The engine value types the helpers pass around. */
module UnityTypes {
  /** UnityEngine.Vector2Int: a pair of integer coordinates. */
  datatype Vector2Int = Vector2Int(x: int, y: int)

  /** Component-wise addition, Vector2Int's + operator. */
  function Add(a: Vector2Int, b: Vector2Int): (r: Vector2Int)
    ensures r.x - a.x == b.x && r.y - a.y == b.y
  {
    Vector2Int(a.x + b.x, a.y + b.y)
  }

  /** Component-wise subtraction, Vector2Int's - operator: adding b back gives a. */
  function Sub(a: Vector2Int, b: Vector2Int): (r: Vector2Int)
    ensures Add(r, b) == a
  {
    Vector2Int(a.x - b.x, a.y - b.y)
  }

  /** Vector2Int.sqrMagnitude: never negative, and zero only for the zero vector. */
  function SqrMagnitude(v: Vector2Int): (r: int)
    ensures r >= 0
    ensures r == 0 <==> v == Vector2Int(0, 0)
    ensures r >= v.x * v.x && r >= v.y * v.y
  {
    v.x * v.x + v.y * v.y
  }
}
