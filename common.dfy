/** Values shared by both demos: two-component vectors (the shaders' `vec2`)
    and the colours the fragment shaders emit, named rather than given as RGBA. */
module Common {

  /** A GLSL `vec2`, with floats read as exact reals. */
  datatype Vec2 = Vec2(x: real, y: real)

  /** The twelve palette colours, in palette order, and opaque black. */
  datatype Color =
    | Red | OrangeRed | Orange | Gold | Yellow | YellowGreen
    | Green | Turquoise | Blue | Indigo | Violet | DeepPink
    | Black

  /** Number of palette entries. */
  const PaletteSize: int := 12

  /** The position of a palette colour; black has none. */
  function PaletteIndex(c: Color): (k: int)
    requires c != Black
    ensures 0 <= k < PaletteSize
  {
    match c
    case Red => 0
    case OrangeRed => 1
    case Orange => 2
    case Gold => 3
    case Yellow => 4
    case YellowGreen => 5
    case Green => 6
    case Turquoise => 7
    case Blue => 8
    case Indigo => 9
    case Violet => 10
    case DeepPink => 11
  }
}
