/**
 * The image settings shared by src/main.cpp and main.cpp.
 */
module Image {

  const AspectRatio: real := 16.0 / 9.0
  const ImageWidth: int := 1920
  const ImageHeight: int := 1080
  const SamplesPerPixel: int := 100
  const MaxDepth: int := 50

  /** IMAGE_HEIGHT is static_cast<int>(IMAGE_WIDTH / ASPECT_RATIO): the quotient is positive,
      so the truncation toward zero is the floor, and it is 1080. */
  lemma ImageHeightFromAspectRatio()
    ensures ImageHeight == (ImageWidth as real / AspectRatio).Floor
  {
    assert ImageWidth as real / AspectRatio == 1080.0;
  }
}
