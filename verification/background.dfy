/** The scene background (src/Background.hpp): a vertical gradient between a bottom and a
    top colour, looked up by the direction of a ray that escapes the scene. */
module Backgrounds {
  import opened Scalar
  import opened Vectors

  datatype Background = Background(bottom: Vec3, top: Vec3)

  /** `Background()`: red at the bottom, blue at the top. */
  const DefaultBackground: Background := Background(Vec3(1.0, 0.0, 0.0), Vec3(0.0, 0.0, 1.0))

  /** The altitude of a direction: 0 looking straight down, 1 straight up for unit directions. */
  function Altitude(direction: Vec3): real {
    0.5 * (direction.y + 1.0)
  }

  /** `sample(direction)`: the gradient at the direction's altitude. */
  function Sample(bg: Background, direction: Vec3): Vec3 {
    Lerp(bg.bottom, bg.top, Altitude(direction))
  }

  /** Every sampled colour lies between the bottom and the top colour component-wise; looking
      straight down gives the bottom colour and straight up the top colour, and directions
      beyond those clamp to them. */
  lemma SampleBetween(bg: Background, direction: Vec3)
    ensures Min(bg.bottom.x, bg.top.x) <= Sample(bg, direction).x <= Max(bg.bottom.x, bg.top.x)
    ensures Min(bg.bottom.y, bg.top.y) <= Sample(bg, direction).y <= Max(bg.bottom.y, bg.top.y)
    ensures Min(bg.bottom.z, bg.top.z) <= Sample(bg, direction).z <= Max(bg.bottom.z, bg.top.z)
    ensures direction.y <= -1.0 ==> Sample(bg, direction) == bg.bottom
    ensures 1.0 <= direction.y ==> Sample(bg, direction) == bg.top
  {
    LerpBetween(bg.bottom, bg.top, Altitude(direction));
  }

  /** A horizontal direction gets the even mix of the two colours. */
  lemma HorizonIsMidway(bg: Background, direction: Vec3)
    requires direction.y == 0.0
    ensures Sample(bg, direction) == Scale(Add(bg.bottom, bg.top), 0.5)
  {
    assert Altitude(direction) == 0.5;
    assert Clamp(0.5, 0.0, 1.0) == 0.5;
  }
}
